# RXCore, verified

A Dafny model of the hard logic of the RXCore tunnel engine, with proofs: its stream multiplexer, quotas,
pacing and copy loops, the Reality handshake's ClientHello handling, checksum repair, the UDP and VLESS wire
formats, DNS caching, configuration reload, routing, rate limits and handshake admission.
`dafny verify dfyconfig.toml` checks all of it.

Most modules have two layers. Functions on values say what the program means: what a byte string decodes to,
what a history of inserts answers, which state a run of steps leads to. Classes and methods with the program's
own loops, buffers and maps are proved to compute just that. Concurrent parts are state machines whose events
are single atomic steps (a locked section, one compare-exchange, one await point); their theorems quantify over
every sequence of events, so over every interleaving. Where a class stands for one participant, its methods let
all the others run between its own steps. Formats, constants and decisions are also stated by themselves, byte by byte
or case by case, so that a specification that says something else would not pass.

| file | what it models |
|---|---|
| `mux_frames.dfy`, `mux_scheduler.dfy`, `mux_streams.dfy`, `mux_connection.dfy` | multiplexer: frames, the two-queue writer, stream leasing and reads as steps, the connection with its reader |
| `quota.dfy`, `pacing.dfy`, `copy_loops.dfy` | lock-free budgets, the virtual-clock rate limit, the one-way copy loops |
| `client_hello.dfy`, `sniffer.dfy`, `reality_records.dfy` | the two ClientHello parsers, record reassembly, replay and fallback |
| `checksum.dfy` | in-place IPv4, TCP and UDP checksum repair |
| `udp_tunnel.dfy`, `vless.dfy` | UDP over a stream, SOCKS5 datagrams, the VLESS request header |
| `dns_cache.dfy`, `single_flight.dfy` | the bounded DNS cache, coalesced lookups |
| `hot_reload.dfy`, `persistence.dfy` | user tables across a reload, which snapshot is written |
| `lowering.dfy`, `lowering_example.dfy`, `domain_names.dfy`, `router.dfy` | Unicode lower-casing, suffix matching, compiled tables, route resolution |
| `rate_limits.dfy`, `admission.dfy`, `associations.dfy` | sliding windows, handshake admission, UDP association tables |
| `bytes.dfy`, `characters.dfy`, `options.dfy`, `hosts.dfy`, `sockets.dfy`, `clocks.dfy`, `route_modes.dfy` | shared types, UTF-8, sockets that split reads anyhow, a monotone clock |

Where the proofs found the code narrower than a reader may expect, the exact condition is proved:

- A frame survives the multiplexer exactly when its payload is at most 65535 bytes, its id below 2^30 and its
  command below 4 (`MuxFrames.OnWireExact`); a larger payload vanishes without an error (`MuxFrames.WriteFrame`).
  A stream with an id of 2^30 or more receives nothing, and its frames reach the id modulo 2^30
  (`MuxConnections.IdsAliasOnTheWire`).
- The stream counter counts leases, not streams: it is the number of streams exactly when no lease is under way
  or was abandoned between counting and the opening frame, and no drop is between the table and the counter
  (`MuxStreams.CounterCountsLeases`, `MuxStreams.ADropIsStillCounted`). As many abandoned leases as a connection
  may have streams refuse every later one (`MuxStreams.AbandonedLeasesRefuse`).
- The writer stops as soon as the queue it asks is closed and empty, and loses what waits in the other
  (`MuxScheduler.TurnDecides`, `MuxScheduler.AClosedQueueStrandsTheOther`).
- A stream whose connection has ended waits for ever unless an end mark had come for it
  (`MuxStreams.NoEndWithoutMark`, `MuxStreams.WaitsForAFrame`).
- The reader counts a close inside a frame header as a clean end (`MuxConnections.RunConnectionReader`).
- A domain of more than 255 bytes never survives the SOCKS5, tunnel or VLESS header, whose length byte wraps
  (`UdpTunnel.WrapRoundTrips`, `UdpTunnel.TunnelIsExact`, `Vless.HeaderRoundTrips`). Replies survive exactly up to
  65526 bytes from an IPv4 source and 65514 from an IPv6 one, whose frame length wraps beyond
  (`UdpTunnel.RepliesReachTheClient`).
- A single-flight leader that is cancelled before it removes its key blocks the key for ever: every later call
  for it gets the channel's error (`SingleFlights.CancelledLeaderBlocksItsKey`, `SingleFlights.ALeaderCanBeCancelled`).
- The reload gives every claimed UUID what was asked for exactly when all clients that claim it agree
  (`HotReload.EntriesAreRightIffClaimsAgree`); settings likewise (`HotReload.SettingsAreRightIffFirstsAgree`).
  Two clients end with one object exactly when both their UUIDs led to it before, or they have one identifier
  (`HotReload.ClientsShareIff`); so an old alias that becomes a client of its own shares its former owner's budget
  (`HotReload.PromotedAliasShares`).
- `get_host` panics on exactly the UTF-8 destinations that contain a colon and either start with `]`, or contain `]`
  and start with a character of more than one byte other than U+212A and U+0130, which lower-case to an ASCII letter
  first (`Router.GetHostPanicsIff`, `Router.AccentedBracketPanics`, `Router.KelvinBracketDoesNotPanic`). It
  takes the last group of an unbracketed IPv6 address for a port (`Router.BareIpv6LosesItsLastGroup`).
- A new UDP association keeps the two maps in agreement exactly when its 16-bit identifier is not in use
  (`Associations.CreationAgreesIff`). The two tasks take the two locks in opposite order, and all of them are
  stuck exactly when each holds one (`Associations.StuckIff`), which can happen (`Associations.TheLocksCanDeadlock`).
- A client that comes back between the association cleanup's scan and its removal is removed if and only if it was
  idle at the scan (`Associations.IdleAtScanIsSweptIff`, `Associations.RefreshedAfterScanIsSwept`).
- An insert into the DNS cache evicts a live host exactly when the cache is full, not empty, and nothing in it has
  expired (`DnsCaches.EvictsIff`), also when the inserted host is in it already
  (`DnsCaches.PresentHostStillEvicts`).

## Model

| member | source | states |
|---|---|---|
| MuxFrames.DecodeEncodeAll | target_core/src/transport/mux.rs:67-84 | reading back any written frames, followed by anything, gives in order every frame the wire can carry, then what the rest decodes to |
| MuxFrames.OnWireExact | target_core/src/transport/mux.rs:73-78 | a frame sequence survives unchanged if and only if every frame is within the format's limits |
| MuxFrames.DecodeResumes | target_core/src/transport/mux.rs:150-173 | bytes that arrive later never change frames already recovered, so reads may split the stream anywhere |
| MuxFrames.WriteFrame | target_core/src/transport/mux.rs:67-84 | the header-buffer writer appends exactly the encoding, reports success on an oversized payload without writing anything, and on failure has written a prefix of the encoding |
| MuxFrames.FrameBytes | target_core/src/transport/mux.rs:73-83 | a frame on the wire, byte by byte: two bits of command and thirty of id, two bytes of length, the payload; nothing for a payload beyond 65535 bytes |
| Bytes.BigEndian | target_core/src/transport/mux.rs:77-78 | the bytes of the big-endian 16, 24 and 32-bit forms, on which every format rests |
| MuxScheduler.OutputMergesPrefixes | target_core/src/transport/mux.rs:86-142 | on every run the picks are an order-preserving merge of a prefix of each queue, nothing lost or repeated; the writer stops only when a closed queue is written out |
| MuxScheduler.LowWaitsForAtMostABurst | target_core/src/transport/mux.rs:94-116 | while the low queue has a frame at each turn, at most 32 high frames go before a low one, less those already counted |
| MuxScheduler.LowOvertakesOnlyAfterABurst | target_core/src/transport/mux.rs:116-138 | a low frame passes a waiting high frame only right after at least 32 high frames in a row |
| MuxScheduler.TurnDecides | target_core/src/transport/mux.rs:92-139 | when a turn stops the writer, when it waits and what it takes, by queue contents, closed flags and the burst counter, exactly |
| MuxScheduler.TurnMakesProgress | target_core/src/transport/mux.rs:92-139 | with both queues open, a turn takes exactly one frame whenever either queue has one |
| MuxScheduler.EnoughTurnsEmptyTheQueues | target_core/src/transport/mux.rs:92-139 | whatever producers send meanwhile, as many turns as frames wait and arrive empty both queues: no frame waits for ever |
| MuxScheduler.AClosedQueueStrandsTheOther | target_core/src/transport/mux.rs:118-126 | a closed high queue stops the writer although a low frame waits, which is lost |
| MuxScheduler.RunConnectionWriter | target_core/src/transport/mux.rs:86-142 | under any schedule the writer's loop writes exactly the encodings of the scheduler's picks; it fails only when a write does, with one pick, all earlier ones written and that one perhaps cut short |
| MuxConnections.RunConnectionReader | target_core/src/transport/mux.rs:144-196 | with other tasks running between reads, exactly the complete frames are dispatched, in order, whatever the reads; success exactly on a clean close with fewer than six bytes over |
| MuxStreams.StreamGetsItsMessages | target_core/src/transport/mux.rs:175-186 | what a registered stream takes plus what waits for it is a subsequence of its messages in order, and all of them if its inbox never fills |
| MuxStreams.DispatchDelivers | target_core/src/transport/mux.rs:175-186 | a frame reaches only the inbox of its id, with its payload for command 0, the empty end mark for 2 and nothing for others, and is lost if 128 messages wait |
| MuxConnections.MuxEndToEnd | target_core/src/transport/mux.rs:67-263 | for any schedule of the writer, any part of its bytes that arrived, and any interleaving of dispatches and polls: the dispatched frames are a prefix of those picked, a stream leased on the way gets its messages in order, all if its inbox never fills, and its polls return a prefix of them, joined, up to the first end mark, and all of it when a poll comes back empty or must wait |
| MuxConnections.Transfer | target_core/src/transport/mux.rs:86-196 | the writer's loop, any part of its bytes, and the reader's loop together dispatch exactly the decoded part of the picked frames |
| MuxConnections.ReceivedIsPrefix | target_core/src/transport/mux.rs:150-173 | any part of the encoding of frames within the limits decodes to a prefix of them, and the whole to all of them |
| MuxConnections.IdsAliasOnTheWire | target_core/src/transport/mux.rs:76-76 | what arrives for an id below 2^30 is what was sent for every id congruent to it, and for a larger id nothing arrives |
| MuxStreams.ReadsAreExact | target_core/src/transport/mux.rs:230-263 | while data still arrives, polls with any buffers return a prefix of the stream's messages, joined, up to the first end mark; a poll into a non-empty buffer is empty or must wait exactly when all that has arrived is read |
| MuxStreams.ReadsJoinMessages | target_core/src/transport/mux.rs:236-257 | bytes read and the unread rest of the last chunk are exactly the messages taken, joined |
| MuxStreams.CounterCountsLeases | target_core/src/transport/mux.rs:328-571 | at every moment, with drops and dispatches between the steps of a lease, the stream counter is the number of existing streams, waiting leases, abandoned leases and those that are between counter and table, within the limit, and that of the existing streams exactly if there are none of the others; with unused ids the table holds exactly the first three |
| MuxStreams.ADropIsStillCounted | target_core/src/transport/mux.rs:328-329 | a dropped stream that has left the table and not the counter still refuses a lease |
| MuxStreams.NoEndWithoutMark | target_core/src/transport/mux.rs:206-258 | whatever happens, a stream to which no end mark was sent never reads an end, and waits exactly when it has read all that was sent if its inbox never filled |
| MuxStreams.WaitsForAFrame | target_core/src/transport/mux.rs:236-257 | a registered stream that has read everything waits until a message for it is dispatched, whatever the other tasks do |
| MuxStreams.AbandonedLeasesRefuse | target_core/src/transport/mux.rs:504-562 | as many abandoned leases as the limit refuse every later lease on the connection, whatever happens after |
| MuxStreams.AnAbandonedLeaseStaysCounted | target_core/src/transport/mux.rs:557-562 | a lease whose opening frame is not sent leaves counter and table raised with no stream |
| MuxStreams.IdsAreFreshBeforeWrap | target_core/src/transport/mux.rs:513-518 | until the 32-bit id counter wraps, no lease reuses an active id |
| MuxConnections.Connection.LeaseStream | target_core/src/transport/mux.rs:505-518 | with other tasks between its steps, the locked part of a lease succeeds exactly if the counter was below the limit at its start, and registers an empty inbox under the next id |
| MuxConnections.Connection.DropStream | target_core/src/transport/mux.rs:318-331 | a drop leaves the table and then the counter, with other tasks in between |
| MuxConnections.Connection.PollRead | target_core/src/transport/mux.rs:230-263 | one poll returns what the step model says: the next bytes of the last chunk or of the next message, the end, or that it must wait |
| MuxConnections.Connection.ReadStream | target_core/src/transport/mux.rs:230-263 | an owner that reads with any non-empty buffers while data arrives gets exactly the bytes its polls read, and stops at the first end mark |
| MuxConnections.ReadToTheEnd | target_core/src/transport/mux.rs:230-263 | what it has then got is exactly the messages up to the first end mark, joined |
| Quota.BudgetIsConserved | target_core/src/transport/mod.rs:1069-1094 | over every interleaving of byte and datagram reservers, spurious failures included, a budget from zero up never goes negative and what it lost is the sum granted, datagrams all or nothing |
| Quota.NegativeBudgetsStay | target_core/src/transport/mod.rs:1073-1079 | an unlimited budget stays unlimited and grants everything asked; any lower one stays and grants nothing |
| Quota.ShortGrantEmptiesTheBudget | target_core/src/transport/mod.rs:1081-1092 | a byte reservation falls short only if it takes the last byte or saw none |
| Quota.RefusalsAreJustified | target_core/src/transport/mod.rs:1069-1094 | over every interleaving a datagram is refused only if it does not fit what is left to the end of the run, and a byte reservation falls short only if nothing is left |
| Quota.AttemptDecides | target_core/src/transport/mod.rs:1072-1093 | what each attempt comes to: the unlimited mark, too little, a lost or failed exchange, which reloads the present budget, or success |
| Quota.TwoAttemptsEnd | target_core/src/state.rs:980-1000 | however often it lost before, a call that is left alone ends with its second attempt |
| Quota.ReserveQuota | target_core/src/transport/mod.rs:1069-1094 | alone, a reservation gets the smaller of request and budget, and the budget drops by that |
| Quota.ReserveUdpDatagram | target_core/src/state.rs:980-1000 | alone, a datagram is admitted exactly if it fits the budget, which drops by its length or stays |
| Quota.SoloCallMatchesTheMethods | target_core/src/state.rs:980-1000 | a call that runs alone in the interleaving model ends as the sequential loops say |
| Pacing.RateBound | target_core/src/transport/mod.rs:1316-1327 | for every history of the rate limiter, bytes written by any write instant are at most the limit times the time since the start |
| Pacing.WindowBound | target_core/src/transport/mod.rs:1316-1327 | bytes of the chunks after i up to j are at most the limit times (write of j less clock reading of i plus 10 ms) |
| Pacing.SendCoversPrefix | target_core/src/transport/mod.rs:1317-1327 | the virtual send instant moves on at least as far as the bytes sent take at the limit |
| Pacing.LateSendersStartAgain | target_core/src/transport/mod.rs:1322-1327 | a chunk that is due more than 10 ms before it is looked at is due now instead, and no other is moved |
| Pacing.NoTimeIsLost | target_core/src/transport/mod.rs:1316-1327 | while the sender is never that late, the send instant is exactly as far from the start as all bytes take at the limit: the limiter costs no throughput |
| Pacing.MaxChunk | target_core/src/transport/mod.rs:1279-1290 | a chunk is the most whole bytes that 5 ms allow, raised to 256 and cut to 4096, 16384 or 65536 by the limit |
| CopyLoops.CopyOneWayFast | target_core/src/transport/mod.rs:1163-1247 | on success, as sole user of the budget, exactly the first bytes the budget allowed are written, and result, the rise of the connection's counter and of the user's own direction, and the budget's drop are that number; it fails only if a read, a write or the shutdown does, and then a prefix of the input was written, and the counters rise alike, short of the budget's fall by less than a megabyte and a chunk |
| CopyLoops.CopyOneWayRateLimited | target_core/src/transport/mod.rs:1249-1361 | the same accounting, on success and on failure, in chunks of bounded size, with a send history that obeys the virtual clock and covers every byte written |
| CopyLoops.CopyOneWayUnlimited | target_core/src/transport/mod.rs:1096-1161 | on success everything is written and the connection's and the user's counter of the direction rise by just that much, whatever the commit times; it fails only if a read, a write or the shutdown does |
| CopyLoops.AllowanceIs | target_core/src/transport/mod.rs:1194-1214 | of a budget that is spent or marked unlimited nothing may be moved, of any other the smaller of budget and data |
| CopyLoops.ReadAdmitted | target_core/src/transport/mod.rs:1194-1214 | what is read and admitted leaves the books balanced, and a cut means the allowance is used up |
| Checksum.InternetChecksum | src-tauri/src/main.rs:890-903 | the 32-bit accumulate-and-fold loop never overflows on up to 128 KiB and gives the complement of the one's complement sum of section 1 of RFC 1071 |
| Checksum.OnesSumFoldsTheWordSum | src-tauri/src/main.rs:899-902 | end-around-carry addition word by word equals folding the plain sum |
| Checksum.FixIpv4Checksums | src-tauri/src/main.rs:905-970 | the in-place repair computes the specified packet on every input, short and malformed ones included |
| Checksum.HeaderChecks | src-tauri/src/main.rs:925-932 | the receiver's check passes over every repaired IP header of at least 20 bytes |
| Checksum.TransportChecks | src-tauri/src/main.rs:934-969 | the receiver's check passes over pseudo header and segment of every repaired TCP segment of 20 bytes or UDP datagram of 8 |
| Checksum.OnlyChecksumsChange | src-tauri/src/main.rs:905-970 | nothing but the two checksum fields ever changes, and nothing at all in a packet that is not repairable |
| Checksum.TcpIsRepaired | src-tauri/src/main.rs:934-951 | by the bytes: in a TCP packet only 10, 11 and two bytes at 16 of the segment change, and the sum over addresses, zero, 6, length and segment is all ones |
| Checksum.UdpIsRepaired | src-tauri/src/main.rs:952-969 | the same for UDP with 17 and the two bytes at 6 |
| Checksum.OtherSegmentsStay | src-tauri/src/main.rs:934-969 | for any other protocol and for shorter segments only the header checksum changes |
| Checksum.OthersAreLeftAlone | src-tauri/src/main.rs:905-923 | a packet that is not version 4, or whose header passes its length, stays as it is |
| Checksum.HeaderIsRepaired | src-tauri/src/main.rs:924-932 | by the bytes: the header of any repaired packet sums to all ones |
| Checksum.OnesSumLaws | src-tauri/src/main.rs:890-903 | the sum of big-endian words, with carries brought round and an odd byte padded |
| Checksum.RepairIsIdempotent | src-tauri/src/main.rs:905-970 | a second repair of any packet changes nothing |
| ClientHellos.ParseEncode | target_core/src/transport/reality.rs:32-192 | parsing any well-formed ClientHello recovers exactly its random, session id and offset, first 32-byte X25519 share and UTF-8 host name |
| ClientHellos.CutHello | target_core/src/transport/reality.rs:32-103 | what every proper prefix of a hello comes to: no hello, the error of the part that is cut, or a hello without extensions |
| ClientHellos.RepeatedExtensions | target_core/src/transport/reality.rs:106-183 | of extensions that repeat, the last ones read count, and reading stops as soon as both a share and a name are known |
| ClientHellos.TheExtensionDecides | target_core/src/transport/reality.rs:119-183 | without repetition, the one extension of each kind decides, wherever it stands |
| ClientHellos.FirstShareIff | target_core/src/transport/reality.rs:157-177 | the key taken is that of the first share of group 0x1D with 32 bytes |
| ClientHellos.FirstNameIff | target_core/src/transport/reality.rs:123-143 | the first name of kind 0 decides, and is taken if it is UTF-8 |
| ClientHellos.ExtensionBytes | target_core/src/transport/reality.rs:110-169 | the two extensions, byte by byte, with their type numbers |
| ClientHellos.ParseClientHello | target_core/src/transport/reality.rs:32-192 | on arbitrary bytes the cursor-driven parser stays in bounds, ends, and returns what the specification says, each error included |
| ClientHellos.ReadExtensions | target_core/src/transport/reality.rs:113-188 | the extension loop with its early exit agrees with the recursive walk |
| ClientHellos.BlankingIsReencoding | target_core/src/transport/reality.rs:504-511 | with a 32-byte session id, what is authenticated is the encoding of the same message with a zero session id |
| Sniffer.SniffAgreesWithParse | target_core/src/dispatcher/sniffer.rs:38-152 | for every well-formed ClientHello in one record, whatever follows, the sniffer finds the name the Reality parser finds |
| Sniffer.OnlyACompleteHelloIsSniffed | target_core/src/dispatcher/sniffer.rs:38-75 | a name is only found in a complete handshake record with a complete ClientHello, and what follows the record plays no part |
| Sniffer.UnusableNamesArePassedOver | target_core/src/dispatcher/sniffer.rs:110-150 | unlike the Reality parser, the sniffer passes over a host name that is not UTF-8 |
| Characters.Utf8Iff | target_core/src/transport/reality.rs:137-139 | the UTF-8 test accepts exactly the encodings of Unicode characters, by section 3 of RFC 3629 |
| Sniffer.ParseSniFromBytes | target_core/src/dispatcher/sniffer.rs:38-152 | on arbitrary bytes the nested index loops stay in bounds, end, and compute the specified name |
| RealityRecords.FragmentedHelloIsParsed | target_core/src/transport/reality.rs:329-400 | however a ClientHello of at most 64 KiB is split over at most eight records, exactly that message is reassembled and parsed and exactly those records are consumed |
| RealityRecords.ReassembleTakesRecords | target_core/src/transport/reality.rs:329-400 | a success consumes a prefix of the stream made of at most eight non-empty handshake records and perhaps one foreign header, with at most 65536 payload bytes |
| RealityRecords.ReassembleEnds | target_core/src/transport/reality.rs:319-400 | when reading ends and with which error: eight records, 64 KiB, the end of the stream, a record that is empty or beyond 18 KiB, one of another type |
| RealityRecords.OtherMessagesStopReading | target_core/src/transport/reality.rs:380-398 | four bytes of a message that is no ClientHello end the reading |
| RealityRecords.ReadHandshake | target_core/src/transport/reality.rs:329-400 | however the socket splits its bytes, buffer followed by the rest of the socket is the original stream, and the payload is the concatenated record bodies |
| RealityRecords.PrefixedStream.PollRead | target_core/src/transport/reality.rs:680-694 | each read returns the next bytes of prefix followed by socket, for any buffer size |
| RealityRecords.PrefixedStream.ReadToEnd | target_core/src/transport/reality.rs:667-694 | reads with any buffers give exactly the consumed bytes and then the rest |
| RealityRecords.Fallback | target_core/src/transport/reality.rs:601-664 | the fallback destination receives the consumed bytes and then everything else |
| RealityRecords.Accept | target_core/src/transport/reality.rs:319-477 | a client is handed to TLS only if its hello parses, its name is allowed, it verifies and a certificate can be made, and then its stream replays from the first byte; without the certificate it gets neither TLS nor the fallback; one whose records cannot be read is rejected and nothing is forwarded; any other client's bytes all reach the fallback, or a prefix of them if that fails |
| RealityRecords.NameAllowedIs | target_core/src/transport/reality.rs:408-418 | names compare lower-cased; a client without one passes only if none are configured |
| UdpTunnel.TunnelIsExact | target_core/src/inbound/socks5.rs:467-513 | a packet sequence survives the tunnel if and only if every host is encodable and every frame length fits 16 bits |
| UdpTunnel.ServeRecoversPackets | target_core/src/outbound/udp.rs:692-794 | the server's decoding recovers exactly the framed (association, target, payload) sequence, less IPv6 in IPv4-only mode |
| UdpTunnel.ServeSkipsWholeFrames | target_core/src/outbound/udp.rs:692-794 | a malformed body never costs the boundary of the next frame |
| UdpTunnel.ServedPacketsFit | target_core/src/outbound/udp.rs:692-794 | whatever arrives, a packet the server reads is one that could have been framed |
| UdpTunnel.DatagramsReachTheServer | target_core/src/inbound/socks5.rs:714-776 | every datagram a socket can receive and the inbound accepts reaches the server with its target and payload, in order |
| UdpTunnel.RepliesReachTheClient | target_core/src/outbound/udp.rs:848-866 | server replies become exactly one datagram each if and only if every payload is at most 65526 bytes from IPv4 and 65514 from IPv6 |
| UdpTunnel.ReplyParses | target_core/src/transport/mod.rs:1008-1038 | such a datagram parses, by section 7 of RFC 1928, to the reply's source and payload |
| UdpTunnel.WrapRoundTrips | target_core/src/transport/mod.rs:978-1038 | a wrapped datagram parses back to its target and payload exactly when the host is encodable, and both parsers agree on literals |
| UdpTunnel.AcceptedIff | target_core/src/inbound/socks5.rs:715-778 | a datagram is accepted exactly if its third byte is zero and a whole, encodable address and the payload follow |
| UdpTunnel.ParsesIff | target_core/src/outbound/udp.rs:713-794 | an address is read exactly where one is written |
| UdpTunnel.AddressBytes | target_core/src/inbound/socks5.rs:475-500 | an address, byte by byte, with the types 1, 3 and 4 |
| UdpTunnel.FrameBytes | target_core/src/inbound/socks5.rs:464-505 | a frame, byte by byte |
| UdpTunnel.Socks5UdpErrors | target_core/src/transport/mod.rs:1008-1038 | which datagrams the upstream parser refuses, and with which error |
| UdpTunnel.BadFrameEndsReading | target_core/src/inbound/socks5.rs:390-405 | a frame length below two, or an end inside a frame, ends the reading on either side |
| UdpTunnel.RelayedIff | target_core/src/inbound/socks5.rs:407-465 | a frame is relayed exactly if its association is known and a complete header of a known type begins it |
| UdpTunnel.RelayedSkipsWholeFrames | target_core/src/inbound/socks5.rs:390-465 | the boundary of a frame is kept on the way back, whatever is in it |
| UdpTunnel.EncodeUpstream | target_core/src/inbound/socks5.rs:467-513 | the buffer-filling writer emits exactly the frame, placeholder length filled in |
| UdpTunnel.ServeLoop | target_core/src/outbound/udp.rs:692-794 | the server's read loop yields exactly the specified packets of any byte stream |
| UdpTunnel.RelayLoop | target_core/src/inbound/socks5.rs:386-465 | the client's downstream loop relays exactly the specified datagrams of any byte stream |
| UdpTunnel.PacketAddrLoop | target_core/src/outbound/udp.rs:210-521 | the rolling buffer with its offset and compaction parses exactly the entries of the stream, whatever resolves |
| UdpTunnel.EntriesBack | target_core/src/outbound/udp.rs:210-330 | what is read of a packet-address stream is what was written, whatever follows |
| UdpTunnel.BadNameIsSkipped | target_core/src/outbound/udp.rs:312-320 | an entry for a name that is not UTF-8 is skipped whole |
| Vless.HeaderRoundTrips | target_core/src/inbound/vless.rs:20-86 | for an allowed user the server reads back the client's request, whatever follows, and consumes exactly the header, if and only if the host is encodable |
| Vless.AddonsAreSkipped | target_core/src/inbound/vless.rs:41-83 | the same with any addons between user and command |
| Vless.OnlyAllowedUsers | target_core/src/inbound/vless.rs:26-39 | no version but 0 is served, and nobody who is not allowed, whatever follows; a request is for the allowed user it names |
| Vless.OnlyKnownCommands | target_core/src/inbound/vless.rs:41-83 | commands other than 1 and 2 and address types other than 1 to 3 are refused, each with its error; command and port are read behind the addons |
| Vless.CutHeader | target_core/src/inbound/vless.rs:7-18 | a header cut short anywhere is an unexpected end |
| Vless.HeaderBytes | target_core/src/outbound/vless_client.rs:133-165 | the client's header, byte by byte |
| Vless.BuildHeader | target_core/src/outbound/vless_client.rs:133-165 | the client's pushes and extends build exactly the header, refusing only IPv6 in IPv4-only mode |
| Vless.ParseVlessInbound | target_core/src/inbound/vless.rs:7-86 | by successive exact reads the server gets the specified request or error and takes nothing beyond the header off the stream |
| DnsCaches.HitIsTheLatestInsert | target_core/src/transport/dns_cache.rs:32-91 | a hit is exactly the latest insert of the host strictly before expiry, 5 to 600 seconds after an answer, the negative time after a failure, with the caller's port |
| DnsCaches.DnsCache.Get | target_core/src/transport/dns_cache.rs:32-53 | a lookup answers as a cache that forgets only expired entries would, except that an evicted host misses |
| DnsCaches.DnsCache.Insert | target_core/src/transport/dns_cache.rs:55-91 | the new entries are exactly what the room-making leaves plus the new one; a victim is chosen exactly from a full cache of live entries; the bound holds, and no host is evicted while fewer distinct hosts than the bound were ever inserted |
| DnsCaches.EvictsIff | target_core/src/transport/dns_cache.rs:59-74 | a host is evicted if and only if the cache is full, not empty, and nothing in it has expired at the scan |
| DnsCaches.RoomIsMade | target_core/src/transport/dns_cache.rs:59-74 | what an insert leaves of the entries: all, or the live ones if any has expired, or all but one |
| DnsCaches.PresentHostStillEvicts | target_core/src/transport/dns_cache.rs:59-90 | inserting a host that is already in a full live cache loses another host, unless the victim is that host itself |
| DnsCaches.InsertAgrees | target_core/src/transport/dns_cache.rs:84-90 | an insert keeps every entry equal to the latest insert of its host |
| SingleFlights.AtMostOneLookup | target_core/src/transport/dns_cache.rs:137-146 | on every run at most one call per key is looking up |
| SingleFlights.KeyIsInMapWhileHeld | target_core/src/transport/dns_cache.rs:139-172 | a key is in the map exactly while some leader of it has not removed it |
| SingleFlights.FollowersGetTheirLeadersResult | target_core/src/transport/dns_cache.rs:148-164 | a follower returns its leader's addresses, or the text of its leader's error under the kind `Other`, or the channel's error exactly if that leader was cancelled |
| SingleFlights.LeaderReturnsItsLookup | target_core/src/transport/dns_cache.rs:166-180 | a leader returns what its own lookup said |
| SingleFlights.FollowerCanReturn | target_core/src/transport/dns_cache.rs:150-163 | once its leader has returned or was cancelled, one look lets a follower return |
| SingleFlights.NothingIsLeftBehind | target_core/src/transport/dns_cache.rs:169-172 | after all calls ended the map is empty if and only if no leader was cancelled before its removal |
| SingleFlights.CancelledLeaderBlocksItsKey | target_core/src/transport/dns_cache.rs:137-172 | after such a cancellation the key stays, and every later call for it can only return the channel's error |
| SingleFlights.ALeaderCanBeCancelled | target_core/src/transport/dns_cache.rs:166-172 | a leader dropped while it looks up comes to that state |
| SingleFlights.SingleFlight.Execute | target_core/src/transport/dns_cache.rs:132-181 | one call with all others interleaved returns its own lookup's result as leader, else a shared lookup's result or the channel's error |
| HotReload.EngineState.UpdateConfig | target_core/src/state.rs:366-525 | fails exactly on a network mode change or an unbuildable runtime and then changes nothing; else the tables are the planned ones, surviving objects change settings only, new ones are fresh with their client's counters, and unmentioned users keep their settings |
| HotReload.TableHoldsTheClaims | target_core/src/state.rs:450-480 | the user table holds exactly the parseable ids and aliases of the new configuration, each as one of its claimants asked |
| HotReload.EntriesAreRightIffClaimsAgree | target_core/src/state.rs:450-480 | every claimant's UUID leads to that client's object in that mode if and only if all claimants agree |
| HotReload.SettingsAreRightIffFirstsAgree | target_core/src/state.rs:394-448 | an object ends with the settings of the first client of each identifier leading to it if and only if these agree |
| HotReload.SettingsAfterReload | target_core/src/state.rs:396-441 | what a client's object holds after a reload, field by field: its own values, and zero for a limit or time it leaves out |
| HotReload.NewUserStartsFrom | target_core/src/state.rs:414-441 | a new user starts from its counters or zero, and from no limit or its gigabytes in bytes |
| HotReload.EntriesAfterReload | target_core/src/state.rs:385-480 | where a client's three UUIDs lead: to the object its own led to before, or a new one, each in its mode |
| HotReload.EmailTableHoldsFirstClients | target_core/src/state.rs:482-485 | the e-mail table holds exactly the addresses of first clients, each with an object of such a client |
| HotReload.TokenTableHoldsTheTokens | target_core/src/state.rs:487-495 | the token table holds exactly the 32-byte tokens of the clients, each with an object of such a client |
| HotReload.ClientsShareIff | target_core/src/state.rs:394-448 | after a reload two clients' entries hold one object if and only if they have one identifier or both their UUIDs led to that object before |
| HotReload.PromotedAliasShares | target_core/src/state.rs:398-417 | an old alias listed as a client of its own goes on with its former owner's object |
| HotReload.EngineState.BuildAllRuntimes | target_core/src/state.rs:355-364 | succeeds exactly when every profile can be built, and a repeated profile id keeps the last |
| HotReload.RuntimesKeepTheLast | target_core/src/state.rs:355-364 | of profiles with one identifier the last is kept |
| Persistence.RunWorker | target_core/src/state.rs:833-930 | however the queue splits into batches, no request is lost: each is written, or something as new, or a write as new failed and the state is dirty |
| Persistence.GenerationsIncrease | target_core/src/state.rs:847-923 | successful writes have strictly increasing generations |
| Persistence.LastWrittenIs | target_core/src/state.rs:847-923 | the last written generation is that of the last successful write, or zero |
| DomainNames.SuffixIsLabelTail | target_core/src/router/mod.rs:51-64 | the byte test for a suffix after a dot says exactly that the suffix's labels end the domain's labels |
| Router.TablesKeepTheMeaning | target_core/src/router/mod.rs:13-49 | matching compiled tables asks exactly whether some enabled set lists the name exactly or by a label suffix |
| Router.OneSetLists | target_core/src/router/mod.rs:19-39 | what one set lists: exact names, names that end in a suffix's labels, nothing when disabled |
| Router.ListedByOne | target_core/src/router/mod.rs:19-39 | what several sets list is what one of them does |
| Router.OrderDoesNotMatter | target_core/src/router/mod.rs:19-39 | tables compiled from the same sets in another order, number or priority match the same names |
| Router.CompileSets | target_core/src/router/mod.rs:19-39 | the compile loops collect exactly the lower-cased entries of the enabled sets |
| Router.DomainRuleMatchesLabelTails | target_core/src/router/mod.rs:66-98 | `domain:` and bare rule patterns match exactly the hosts whose lower-cased labels end with those of the lower-cased pattern |
| Router.KeywordsAndExpressions | target_core/src/router/mod.rs:74-91 | `keyword:` patterns match names that contain the word, `regexp:` ones by the expression, or as a word if it does not compile |
| Router.MatchRule | target_core/src/router/mod.rs:226-282 | the flag-and-break loops decide exactly whether every stated condition of a rule holds |
| Router.RuleIsAConjunction | target_core/src/router/mod.rs:226-282 | a rule matches exactly if each of its conditions does by itself |
| Router.EachCondition | target_core/src/router/mod.rs:226-282 | what each condition says: of host or SNI, address range, port and inbound |
| Router.ResolveRoute | target_core/src/router/mod.rs:165-298 | resolution over compiled tables gives the route the configuration asks for: internal direct, mode override, first matching rule, mode default |
| Router.ModesWithoutRules | target_core/src/router/mod.rs:176-298 | what each mode does when no rule matches |
| Router.FirstRuleDecides | target_core/src/router/mod.rs:176-298 | after internal destinations and the mode's own list, the first matching rule decides |
| Router.InternalIs | target_core/src/router/mod.rs:176-187 | which destinations are internal |
| Router.EitherIs | target_core/src/router/mod.rs:300-336 | a destination is listed by its host or its SNI |
| Router.RouteIsUnique | target_core/src/router/mod.rs:165-298 | that route is unique |
| Router.GetHostPanicsIff | target_core/src/router/mod.rs:148-163 | of UTF-8 destinations, with Unicode lower-casing, extraction panics on exactly those with a colon that start with `]`, or contain `]` and start with a multi-byte character other than U+212A and U+0130 |
| Router.AccentedBracketPanics | target_core/src/router/mod.rs:149-155 | a destination of the second kind |
| Router.KelvinBracketDoesNotPanic | target_core/src/router/mod.rs:149-155 | the same with U+212A first has the empty host |
| Router.GetHostIsWholeIff | target_core/src/router/mod.rs:150-161 | a destination is its own host exactly if it has no colon or stands in brackets from end to end |
| Router.HostOfStopsAtBracket | target_core/src/router/mod.rs:153-155 | any other text with a `]` gives what lies between its first byte and the first `]`, or panics |
| Router.HostOfStopsAtColon | target_core/src/router/mod.rs:156-158 | and one without gives what lies before its last colon |
| Router.HostOfName | target_core/src/router/mod.rs:148-163 | a name or IPv4 address, alone or with a port, gives itself, lower-cased, if the port is of digits or no capital sigma occurs |
| Router.HostOfBracketed | target_core/src/router/mod.rs:148-163 | a bracketed IPv6 address with a port gives the address |
| Router.BareIpv6LosesItsLastGroup | target_core/src/router/mod.rs:157-158 | an unbracketed IPv6 address, or any text with a colon and no `]`, loses what follows the last colon |
| RateLimits.SubscriptionLimiter.Check | target_core/src/api/mod.rs:658-679 | despite pruning, a request is granted if and only if fewer than 10 of all grants ever made to its address are less than 60 s old |
| RateLimits.EveryWindowHoldsAtMostTen | target_core/src/api/mod.rs:670-678 | no 60 s window, wherever it starts, holds more than 10 grants to one address |
| RateLimits.RecentOfRecent | target_core/src/api/mod.rs:663-671 | forgetting what has left the window is invisible to every later look |
| RateLimits.RecentIs | target_core/src/api/mod.rs:663-671 | the recent instants are exactly those less than a window old |
| RateLimits.LogAppend | target_core/src/auth.rs:51-64 | a failure adds to both counts, a success clears its address's |
| RateLimits.LoginRateLimiter.IsAllowed | target_core/src/auth.rs:31-49 | a login is allowed if and only if fewer than 20 failures overall, and fewer than 5 of its address since its last success, are less than 300 s old |
| RateLimits.LoginRateLimiter.RecordFailure | target_core/src/auth.rs:51-59 | a failure enters the history of both windows at the same instant |
| RateLimits.LoginRateLimiter.RecordSuccess | target_core/src/auth.rs:61-64 | a success clears its address only |
| Admission.LimitsHold | target_core/src/inbound/mod.rs:101-146 | in every interleaving an address's count is its live guards, one or two while present, and guards and tracked addresses are at most the four permits |
| Admission.MapIsNeverFull | target_core/src/inbound/mod.rs:118-120 | the refusal for a full map is unreachable |
| Admission.CheckAdmitsIff | target_core/src/inbound/mod.rs:110-122 | a permitted attempt is admitted exactly when its address has fewer than two live guards |
| Admission.ArrivalIsPermittedIff | target_core/src/inbound/mod.rs:101-108 | a newcomer gets a permit exactly while fewer than four attempts hold one |
| Admission.CanonicalIs | target_core/src/inbound/mod.rs:94-99 | an IPv6 address that maps or embeds an IPv4 address counts as that one, and every other address as itself |
| Admission.NothingIsLeftBehind | target_core/src/inbound/mod.rs:124-146 | with no handshake live the map is empty and all permits are free |
| Admission.Engine.AcceptBounded | target_core/src/inbound/mod.rs:88-153 | one attempt with all others interleaved is refused for a permit exactly if four attempts held one when it came, for its address exactly if that had two live guards at the check, and else runs |
| Associations.MapsAgreeBeforeWrap | target_core/src/inbound/socks5.rs:168-234 | until the 16-bit ids wrap, sessions and associations name each other on every run, whatever happens between the cleanup's two phases |
| Associations.CreationAgreesIff | target_core/src/inbound/socks5.rs:213-231 | a lookup or creation keeps the agreement if and only if it reuses no live id |
| Associations.ServiceIs | target_core/src/inbound/socks5.rs:203-234 | a served client keeps its association or gets the next id, everybody else's stays, and it is not idle for 60 seconds |
| Associations.IdleIff | target_core/src/inbound/socks5.rs:175-183 | an association is idle exactly if its last activity was more than 60 seconds ago |
| Associations.RefreshIs | target_core/src/inbound/socks5.rs:431-434 | a reply renews the last activity and changes nothing else |
| Associations.RemovalAgrees | target_core/src/inbound/socks5.rs:185-192 | removing listed pairs that are still current keeps the agreement |
| Associations.StuckIff | target_core/src/inbound/socks5.rs:185-211 | no task can move exactly when one holds the session lock while the cleanup holds the association lock |
| Associations.TheLocksCanDeadlock | target_core/src/inbound/socks5.rs:185-211 | such a state is reachable in five steps |
| Associations.SweepRemovesIff | target_core/src/inbound/socks5.rs:185-192 | a sweep removes a client if and only if its association and itself are listed as a pair |
| Associations.IdleAtScanIsSweptIff | target_core/src/inbound/socks5.rs:175-192 | on every run, a client with an association at the scan loses it if and only if it was idle then, whatever is sent either way before the removal |
| Associations.RefreshedAfterScanIsSwept | target_core/src/inbound/socks5.rs:175-191 | a run in which a client is served again after the scan, gets a reply, and is then swept |
| Associations.AssociationTable.GetOrCreateAssociation | target_core/src/inbound/socks5.rs:203-234 | the map updates are exactly the specified lookup or creation |

## Left out

- Sockets, TLS, dialing, timeouts, files: reads, their sizes, clock readings and failures are left open instead.
- Cryptography, hex and UUID parsing, IP and CIDR parsing, regular expressions, `to_lowercase`, certificates: parameters of the members that use them. What the router needs of Unicode lower-casing is `Lowering.Unicode`, which some function has (`LoweringExample.SomeFunctionIsUnicode`).
- Router.HostOfName: says nothing of a name before a colon and a port that is not of digits when either has a capital sigma, whose lower case depends on the letters around it; `Router.HostOfStopsAtColon` holds of the lower-cased text.
- The HTTP API, web pages, dashboard, statistics and command line: no hard property.
- Multiplexer: connecting and closing pooled connections, and the pool's connection limit, which is checked before an unlocked connect and so bounds nothing across concurrent leases.
- MuxConnections.Connection.PollRead: the waker of a pending read is not modelled. What a stream has left of its last chunk is kept by its id beside the table of inboxes, not in an object of its own.
- CopyLoops.CopyOneWayFast: exact amounts are stated for a connection that is the only user of its budget; under sharing, `Quota.BudgetIsConserved` holds. A direction cancelled from outside loses its uncommitted batch and is not modelled, nor is 64-bit wrap-around of traffic counters or the `dirty` flag.
- CopyLoops.CopyOneWayRateLimited: sleeping times are exact rationals, not 64-bit floating point. The unlimited mark counts as a spent budget, as in the code.
- `record_rx`, `record_tx` and `add_quota`: they subtract without a floor or store without a compare, so they are no part of the conservation model.
- Checksum: the rule of RFC 768 that a zero UDP checksum is sent as all ones is not implemented by the code.
- UdpTunnel: name resolution, idle-session cleanup and the 65535-byte read buffers, whose sizes the 16-bit lengths already bound.
- SingleFlights, Admission: a call cancelled in the middle of a synchronous section, which the runtime cannot do.
- HotReload.EngineState.UpdateConfig: swapping Reality runtimes of active listeners and compiling the routing tables (`Router.Compile` is separate); NaN budgets; 64-bit casts of totals.
- Persistence.RunWorker: file contents. The worker writes a file only if a user counter changed, so what is on disk is not claimed.
- RateLimits.SubscriptionLimiter.Check: clock readings are in lock order. The code reads the clock before it takes the lock, so two racing requests may be recorded out of order.
- RateLimits.LoginRateLimiter.IsAllowed: clock readings are in lock order here too, as for RateLimits.LoginRateLimiter.RecordFailure. Attempts between a check and its recorded failure are not bounded, as the two are separate calls.
- Associations: identifiers after the counter wraps, beyond the exact condition for one creation.
- Fragment chunking, WARP health states and session cookies: true but easy.
