# Chat transport core in Dafny

A model of the core of a small Java chat application's transport layer:

- the in-band control protocol. A payload is classified by its first two bytes: ESC (27) followed by 3 connects and ESC followed by 2 disconnects.
- the millisecond clock helpers.
- chat messages: a fuzzy equality used to drop repeats, and rendering through a `$…$` placeholder template.
- the peer liveness record. A peer with no activity for more than five minutes is dead.
- the transport base class: consumer fan-out with duplicate suppression, the shutdown guard, restart and the registry of transport instances.
- the three servers:
  - the raw datagram server's peer table;
  - the stream server's client registry, with eviction on failed writes, an idle sweep and shutdown;
  - the remote-callback server's subscriber fan-out.

Modules follow the Java classes:

| module | file | Java class |
|---|---|---|
| `GeneralUtils` | general_utils.dfy | `utils/GeneralUtils` |
| `Liveness` | client_timestamp_container.dfy | `utils/ClientTimestampContainer` |
| `Messages`, `MessageRendering` | message.dfy, message_rendering.dfy | `data/Message` |
| `Networks` | abstract_network.dfy | `network/AbstractNetwork` |
| `UdpServer` | udp_server_module.dfy | `network/udp/raw/UdpServerModule` |
| `SocketServer` | socket_server_module.dfy | `network/socket/SocketServerModule` and its `Client` |
| `Rmi` | rmi_server.dfy | `network/rmi/server/RmiServer` |

Three support modules hold what Java gets from its library:

- `Wrappers`: `Option`, used for `null`.
- `Seqs`: `List.indexOf`, `List.remove(Object)`, and selecting list elements by a mask of flags.
- `JavaText`: `String.contains`, `String.replace`, `equalsIgnoreCase` and the decimal rendering of a `long`.

Classes whose fields the Java code updates are Dafny classes. These are `ClientTimestampContainer`, `Network`, `NetworkRegistry`, `UdpServerModule`, `SocketServerModule`, `Client` and `RmiServer`. Their lists are `seq` fields that the methods reassign.

Loops over a list are `for` loops with invariants, proved against specification functions:

- `Select` of the snapshot with a flag mask: the stream server's eviction and sweep.
- `SweepAsWritten` and `LiveRecords`: the datagram server's sweep.
- `Reached`: remote callbacks.
- `Rebroadcast`: datagram fan-out.

Everything outside the program becomes a parameter:

- The clock is a `now` argument wherever `System.currentTimeMillis` is read.
- A failing socket write, datagram send or remote call is an oracle: a set of unreachable targets, or a `bindFails` flag.
- Configuration values are parameters: the configured user, whether the server is enabled, and the rendered date and time of a message.

## Model

| member | source | states |
|---|---|---|
| GeneralUtils.CheckCommand | src/main/java/de/hrw/dsalab/distsys/chat/utils/GeneralUtils.java:133-154 | the four classes as if-and-only-if conditions: under two bytes is UNKNOWN; a first byte other than ESC is REGULAR; ESC then 3 is CONNECT; ESC then 2 is DISCONNECT; ESC then anything else is UNKNOWN |
| GeneralUtils.CheckCommandReadsTwoBytes | src/main/java/de/hrw/dsalab/distsys/chat/utils/GeneralUtils.java:135-148 | only the first two bytes decide: appending bytes never changes the class |
| GeneralUtils.ControlSequencesClassify | src/main/java/de/hrw/dsalab/distsys/chat/utils/GeneralUtils.java:35-57 | CONNECT_SEQUENCE classifies as CONNECT and DISCONNECT_SEQUENCE as DISCONNECT; the empty array, a lone ESC and ESC 9 are UNKNOWN; "AB" is REGULAR |
| GeneralUtils.RangeIsInclusive | src/main/java/de/hrw/dsalab/distsys/chat/utils/GeneralUtils.java:122-124 | isNumberInRange holds iff min ≤ number ≤ max; both ends are inside, their neighbours outside, and an inverted range is empty |
| GeneralUtils.TimePartsRecompose | src/main/java/de/hrw/dsalab/distsys/chat/utils/GeneralUtils.java:86-113 | for t ≥ 0 the hour is in [0,24), minute and second in [0,60), millisecond in [0,1000), and h·HOURS + m·MINUTES + s·SECONDS + ms = t mod one day |
| GeneralUtils.TimePartsOfNegative | src/main/java/de/hrw/dsalab/distsys/chat/utils/GeneralUtils.java:86-113 | Java's truncating `/` and `%`: for t < 0 every part lies in (-bound, 0] |
| GeneralUtils.WrapLong | src/main/java/de/hrw/dsalab/distsys/chat/data/Message.java:88-90 | the result is a `long` congruent to the exact value modulo 2^64, and equal to it whenever the exact value fits in a `long` |
| GeneralUtils.WrapLongAboveMax | src/main/java/de/hrw/dsalab/distsys/chat/utils/ClientTimestampContainer.java:64 | an exact result just above Long.MAX_VALUE wraps to a negative `long` |
| GeneralUtils.NegativeMillisecondsExample | src/main/java/de/hrw/dsalab/distsys/chat/utils/GeneralUtils.java:102-113 | -1 ms reads as -1 milliseconds (not 999), and -1500 ms as -1 second |
| Liveness.DeadAfterInactivityTime | src/main/java/de/hrw/dsalab/distsys/chat/utils/ClientTimestampContainer.java:63-65 | while the deadline `lastActivity + INACTIVITY_TIME` fits in a `long`, a record is dead iff more than the inactivity time has passed since its activity |
| Liveness.DeadlineWrapsNearLongMax | src/main/java/de/hrw/dsalab/distsys/chat/utils/ClientTimestampContainer.java:63-65 | when the deadline overflows a `long`, it wraps negative and the record is dead already at its own activity time |
| Liveness.DeadBoundary | src/main/java/de/hrw/dsalab/distsys/chat/utils/ClientTimestampContainer.java:63-65 | the inactivity time is 300000 ms; a record is alive up to and including 300000 ms after its activity and dead at 300001 |
| Liveness.DeadStaysDead | src/main/java/de/hrw/dsalab/distsys/chat/utils/ClientTimestampContainer.java:63-65 | with a clock that does not go back, a dead record stays dead until refreshed |
| Liveness.ClientTimestampContainer.Empty | src/main/java/de/hrw/dsalab/distsys/chat/utils/ClientTimestampContainer.java:30-32 | the empty container has no address (null) and last activity 0 |
| Liveness.ClientTimestampContainer.constructor | src/main/java/de/hrw/dsalab/distsys/chat/utils/ClientTimestampContainer.java:38-41 | a new container holds the address and the creation time, so it is not dead at that instant unless the deadline overflows a `long` |
| Liveness.ClientTimestampContainer.UpdateActivity | src/main/java/de/hrw/dsalab/distsys/chat/utils/ClientTimestampContainer.java:46-48 | activity becomes `now`, so the record is not dead at `now` unless the deadline overflows a `long`; with a clock that does not go back the activity never decreases; the address is a constant |
| Liveness.ClientTimestampContainer.Equals | src/main/java/de/hrw/dsalab/distsys/chat/utils/ClientTimestampContainer.java:74-79 | true iff the other is a container (not null) with an equal address; the receiver must have an address |
| Liveness.EqualsIgnoresActivity | src/main/java/de/hrw/dsalab/distsys/chat/utils/ClientTimestampContainer.java:74-79 | equality of two containers is equality of their addresses, whatever their activity, and is symmetric |
| Messages.BuildMessage | src/main/java/de/hrw/dsalab/distsys/chat/data/Message.java:49-54 | the builder's defaults: the message is stamped `now` and has type IN |
| Messages.BuildSystemMessage | src/main/java/de/hrw/dsalab/distsys/chat/data/Message.java:182-184 | a notice from the system user with the given text, stamped `now`, of type IN |
| Messages.Equals | src/main/java/de/hrw/dsalab/distsys/chat/data/Message.java:82-95 | true iff the other is a message, the timestamp gap computed in 64-bit wrapping arithmetic is at most 10000 ms, the uids are equal and the texts upper-case to the same string |
| Messages.EqualsWithinLongRange | src/main/java/de/hrw/dsalab/distsys/chat/data/Message.java:88-94 | when the exact gap fits in a `long`, equality is: gap at most 10000 ms, equal uids, texts equal ignoring case |
| Messages.EqualsAcrossLongWrap | src/main/java/de/hrw/dsalab/distsys/chat/data/Message.java:88-90 | messages at 0 and Long.MIN_VALUE with the same user and text are equal, because the gap overflows to a negative `long` |
| Messages.EqualsIsSymmetric | src/main/java/de/hrw/dsalab/distsys/chat/data/Message.java:88-94 | the equality does not depend on the receiver |
| Messages.EqualsWindowIsInclusive | src/main/java/de/hrw/dsalab/distsys/chat/data/Message.java:88-91 | a gap of exactly 10000 ms is still equal; 10001 ms is not |
| Messages.EqualsIsNotTransitive | src/main/java/de/hrw/dsalab/distsys/chat/data/Message.java:88-94 | messages at 0, 10000 and 20000 ms chain pairwise but the outer two differ |
| Messages.EqualsNullIsFalse | src/main/java/de/hrw/dsalab/distsys/chat/data/Message.java:83-85 | nothing that is not a message (null included) equals a message |
| Messages.ResolveType | src/main/java/de/hrw/dsalab/distsys/chat/data/Message.java:125-127 | the configured user's messages are OUT, even from the system user; otherwise the system user's are SYSTEM; otherwise the stored type is kept, and null becomes NONE |
| Messages.DirectionMarker | src/main/java/de/hrw/dsalab/distsys/chat/data/Message.java:128-143 | every marker is two characters with no '$' |
| Messages.DirectionMarkersDiffer | src/main/java/de/hrw/dsalab/distsys/chat/data/Message.java:130-143 | different directions have different markers |
| Messages.GetMessage | src/main/java/de/hrw/dsalab/distsys/chat/data/Message.java:122-165 | the message comes back with its type set to the resolved type, and the text is the template after the seven guarded substitutions in source order (`Render`) |
| MessageRendering.RenderPlainTemplate | src/main/java/de/hrw/dsalab/distsys/chat/data/Message.java:128-163 | a template without '$' is returned unchanged |
| MessageRendering.RenderMessageVerbatim | src/main/java/de/hrw/dsalab/distsys/chat/data/Message.java:161-163 | "$message$" renders as the chat text verbatim, because it is substituted last |
| MessageRendering.RenderTimestampKeepsDollar | src/main/java/de/hrw/dsalab/distsys/chat/data/Message.java:146-148 | "$timestamp$" renders as the decimal timestamp followed by a stray '$', because the pattern replaced is "$timestamp" |
| MessageRendering.RenderDirection | src/main/java/de/hrw/dsalab/distsys/chat/data/Message.java:128-145 | "$dir$" renders as the marker of the resolved type |
| MessageRendering.SystemNoticeDirection | src/main/java/de/hrw/dsalab/distsys/chat/data/Message.java:125-145 | a system notice renders "$dir$" as "><" unless the configured user is the system user |
| JavaText.EqualsIgnoreCaseIsUpperCaseEquality | src/main/java/de/hrw/dsalab/distsys/chat/data/Message.java:94 | equalsIgnoreCase holds iff the upper-cased strings are equal, so it is an equivalence |
| JavaText.NatToStringRoundTrip | src/main/java/de/hrw/dsalab/distsys/chat/data/Message.java:147 | reading the decimal rendering of a number back gives the number |
| JavaText.LongToStringInjective | src/main/java/de/hrw/dsalab/distsys/chat/data/Message.java:147 | distinct timestamps render as distinct strings |
| Seqs.RemoveFirst | src/main/java/de/hrw/dsalab/distsys/chat/network/AbstractNetwork.java:128-130 | List.remove(Object): an absent element leaves the list alone; otherwise the list loses exactly the element at the first index of `x` |
| Seqs.RemoveFirstMultiset | src/main/java/de/hrw/dsalab/distsys/chat/network/AbstractNetwork.java:128-130 | List.remove(Object) takes away one occurrence of `x` when there is one, and nothing else |
| Networks.RestartNotice | src/main/java/de/hrw/dsalab/distsys/chat/network/AbstractNetwork.java:150 | the notice starts with the exception message, ends with "Please restart the application", has a '.' just before that, and adds the '.' only when the message does not already end with one |
| Networks.SystemMessagesAreDelivered | src/main/java/de/hrw/dsalab/distsys/chat/network/AbstractNetwork.java:137-141 | a system-user message is never suppressed and becomes the last message |
| Networks.NoImmediateRedelivery | src/main/java/de/hrw/dsalab/distsys/chat/network/AbstractNetwork.java:137-141 | right after a delivery, a non-system message equal to it is dropped |
| Networks.DuplicateSuppressionScenario | src/main/java/de/hrw/dsalab/distsys/chat/network/AbstractNetwork.java:136-142 | "hi" at 0 ms is delivered; "HI" at 5 s is dropped and the last message stays "hi" at 0; "hi" at 20 s is delivered |
| Networks.Network.constructor | src/main/java/de/hrw/dsalab/distsys/chat/network/AbstractNetwork.java:62-64 | no consumers, not shutting down, no last message |
| Networks.Network.Subscribe | src/main/java/de/hrw/dsalab/distsys/chat/network/AbstractNetwork.java:120-122 | the consumer is appended, duplicates allowed; nothing else changes |
| Networks.Network.Unsubscribe | src/main/java/de/hrw/dsalab/distsys/chat/network/AbstractNetwork.java:128-130 | the first equal consumer is removed, the others keep their order; nothing else changes |
| Networks.Network.NotifyNetworkConsumer | src/main/java/de/hrw/dsalab/distsys/chat/network/AbstractNetwork.java:136-142 | a null message, or a non-system message equal to the last one, delivers nothing and keeps the last message; any other message goes to every consumer once, in list order, and becomes the last message |
| Networks.Network.ConnectionEstablished | src/main/java/de/hrw/dsalab/distsys/chat/network/AbstractNetwork.java:158-161 | the notice "Connection to <ip> successful established. Type disconnect to close the connection" from the system user reaches every consumer in order and becomes the last message; consumers and shutdown flag are unchanged |
| Networks.Network.ConnectionLost | src/main/java/de/hrw/dsalab/distsys/chat/network/AbstractNetwork.java:166-169 | the notice "Connection lost. Type connect to reestablish a connection" from the system user reaches every consumer in order and becomes the last message; consumers and shutdown flag are unchanged |
| Networks.Network.ExceptionOccurred | src/main/java/de/hrw/dsalab/distsys/chat/network/AbstractNetwork.java:148-152 | the restart notice from the system user reaches every consumer in order and becomes the last message |
| Networks.Network.ShutdownSequence | src/main/java/de/hrw/dsalab/distsys/chat/network/AbstractNetwork.java:177-192 | returns false and leaves the flag set when a sequence is running; otherwise returns true with the flag cleared again |
| Networks.Network.Restart | src/main/java/de/hrw/dsalab/distsys/chat/network/AbstractNetwork.java:198-203 | stop is always called; start follows exactly when the shutdown sequence ran; the last message becomes the start's connection notice when start ran and announces a host, else the stop's connection-lost notice when stop announces one, else stays |
| Networks.NetworkRegistry.constructor | src/main/java/de/hrw/dsalab/distsys/chat/network/AbstractNetwork.java:221 | the registry starts empty |
| Networks.NetworkRegistry.GetNetwork | src/main/java/de/hrw/dsalab/distsys/chat/network/AbstractNetwork.java:228-238 | afterwards exactly the six registered kinds are present and the instances already there are kept; a registered kind gets its cached instance of that kind; any other kind gets a fresh socket transport that is not cached |
| UdpServer.FirstWithAddressFound | src/main/java/de/hrw/dsalab/distsys/chat/network/udp/raw/UdpServerModule.java:157-158 | the first-match search finds a record exactly when the address is in the table (`contains`, then `findFirst`) |
| UdpServer.ConnectAppends | src/main/java/de/hrw/dsalab/distsys/chat/network/udp/raw/UdpServerModule.java:183-187 | CONNECT appends a record even for a known address, so the sender gets one more record; other addresses are untouched |
| UdpServer.DisconnectRemovesFirstOnly | src/main/java/de/hrw/dsalab/distsys/chat/network/udp/raw/UdpServerModule.java:189-193 | DISCONNECT removes only the sender's first record; its other records and all other addresses' records stay in order; an unknown sender changes nothing |
| UdpServer.UnknownLeavesTable | src/main/java/de/hrw/dsalab/distsys/chat/network/udp/raw/UdpServerModule.java:182-195 | an UNKNOWN frame leaves the table unchanged |
| UdpServer.RefreshKeepsAddresses | src/main/java/de/hrw/dsalab/distsys/chat/network/udp/raw/UdpServerModule.java:156-159 | refreshing keeps every address in place; the sender's first record gets activity `now` and is alive unless the deadline overflows a `long`; every other record is unchanged; an unknown sender changes nothing |
| UdpServer.RegularDataKeepsMembership | src/main/java/de/hrw/dsalab/distsys/chat/network/udp/raw/UdpServerModule.java:156-163 | regular data never changes which addresses are in the table |
| UdpServer.Rebroadcast | src/main/java/de/hrw/dsalab/distsys/chat/network/udp/raw/UdpServerModule.java:123-135 | while alive, one datagram with the data goes to each record in order, the origin included; when not alive, none |
| UdpServer.LiveRecordsAreExactlyTheLiveOnes | src/main/java/de/hrw/dsalab/distsys/chat/network/udp/raw/UdpServerModule.java:105-117 | the intended sweep keeps every live record and no dead one, and removes as many records as are dead |
| UdpServer.SweepAsWrittenWithDistinctAddresses | src/main/java/de/hrw/dsalab/distsys/chat/network/udp/raw/UdpServerModule.java:108-115 | without duplicate addresses, sweeping the rest of the snapshot leaves the records kept so far followed by the live records of that rest |
| UdpServer.SweepAsWrittenIsLiveRecords | src/main/java/de/hrw/dsalab/distsys/chat/network/udp/raw/UdpServerModule.java:105-117 | without duplicate addresses the sweep as written is the intended one |
| UdpServer.SweepAsWrittenDropsLivePeer | src/main/java/de/hrw/dsalab/distsys/chat/network/udp/raw/UdpServerModule.java:108-115 | a peer that connects twice and then sends data loses its live record to the sweep and keeps its dead one |
| UdpServer.LiveContainers | src/main/java/de/hrw/dsalab/distsys/chat/network/udp/raw/UdpServerModule.java:108-115 | the containers alive at `now`, in order and without duplicates, hold exactly the intended sweep's records; the count is the number of dead records |
| UdpServer.UdpServerModule.constructor | src/main/java/de/hrw/dsalab/distsys/chat/network/udp/raw/UdpServerModule.java:52 | the peer table starts empty |
| UdpServer.UdpServerModule.FindFirst | src/main/java/de/hrw/dsalab/distsys/chat/network/udp/raw/UdpServerModule.java:157-158 | the position found is that of the first container with the address, or the table's length when there is none |
| UdpServer.UdpServerModule.HandleDataIn | src/main/java/de/hrw/dsalab/distsys/chat/network/udp/raw/UdpServerModule.java:123-135 | the sends attempted are the rebroadcast of the table; every send to a reachable address is delivered, and only those |
| UdpServer.UdpServerModule.Receive | src/main/java/de/hrw/dsalab/distsys/chat/network/udp/raw/UdpServerModule.java:154-166 | the table becomes the sender-refreshed table after the control frame, if it is one; regular data is rebroadcast to the table, anything else sends nothing; exactly the attempted datagrams to reachable addresses are delivered |
| UdpServer.UdpServerModule.Touch | src/main/java/de/hrw/dsalab/distsys/chat/network/udp/raw/UdpServerModule.java:156-159 | the first container with the address gets activity `now`; nothing else changes |
| UdpServer.UdpServerModule.RefreshAt | src/main/java/de/hrw/dsalab/distsys/chat/network/udp/raw/UdpServerModule.java:158 | updating the first matching container in place refreshes exactly that record of the table |
| UdpServer.UdpServerModule.HandleCommand | src/main/java/de/hrw/dsalab/distsys/chat/network/udp/raw/UdpServerModule.java:181-196 | CONNECT appends the new container, DISCONNECT removes the first with its address, anything else changes nothing |
| UdpServer.UdpServerModule.RemoveFirstWith | src/main/java/de/hrw/dsalab/distsys/chat/network/udp/raw/UdpServerModule.java:192 | `remove` with address equality drops the first record with the address |
| UdpServer.UdpServerModule.SweepOne | src/main/java/de/hrw/dsalab/distsys/chat/network/udp/raw/UdpServerModule.java:109-114 | a dead snapshot container removes the first container with its address; a live one changes nothing; this is one step of the sweep as written |
| UdpServer.UdpServerModule.CleanDeadClients | src/main/java/de/hrw/dsalab/distsys/chat/network/udp/raw/UdpServerModule.java:105-117 | the table becomes the sweep as written of its snapshot, and the count is the number of dead records in the snapshot |
| UdpServer.UdpServerModule.CleanDeadClientsCorrected | src/main/java/de/hrw/dsalab/distsys/chat/network/udp/raw/UdpServerModule.java:105-117 | the table becomes exactly its live records in order, and the count is the number of dead ones |
| SocketServer.DisconnectRequestedAgreesWithClassifier | src/main/java/de/hrw/dsalab/distsys/chat/network/socket/SocketServerModule.java:309-320 | for frames starting with ESC, the client's disconnect test is exactly the classifier's DISCONNECT; the connect frame is not a disconnect |
| SocketServer.Client.constructor | src/main/java/de/hrw/dsalab/distsys/chat/network/socket/SocketServerModule.java:277-282 | a new client is not connected, and its fresh liveness record holds the peer's address and the accept time |
| SocketServer.Client.IsInactive | src/main/java/de/hrw/dsalab/distsys/chat/network/socket/SocketServerModule.java:288-290 | while the deadline fits in a `long`, inactive iff more than the inactivity time has passed since the last activity |
| SocketServer.Client.Connect | src/main/java/de/hrw/dsalab/distsys/chat/network/socket/SocketServerModule.java:364-372 | afterwards the client is connected; the receive loop starts only when it was not connected before |
| SocketServer.Client.Disconnect | src/main/java/de/hrw/dsalab/distsys/chat/network/socket/SocketServerModule.java:377-382 | afterwards the client is not connected; a second call changes nothing |
| SocketServer.Client.Send | src/main/java/de/hrw/dsalab/distsys/chat/network/socket/SocketServerModule.java:298-303 | nothing is written to a disconnected client; a connected one is written the data, or the write fails |
| SocketServer.Client.HandleCommand | src/main/java/de/hrw/dsalab/distsys/chat/network/socket/SocketServerModule.java:309-320 | the flag is cleared exactly when the frame has more than one byte and its second byte is 2; otherwise it is unchanged |
| SocketServer.Client.Receive | src/main/java/de/hrw/dsalab/distsys/chat/network/socket/SocketServerModule.java:337-346 | no data: nothing changes; any data sets the activity to `now`, which leaves the client active unless the deadline overflows a `long`; a frame starting with ESC goes to the command handler, anything else is handed on for broadcast |
| SocketServer.BroadcastPartition | src/main/java/de/hrw/dsalab/distsys/chat/network/socket/SocketServerModule.java:226-240 | after a broadcast a client was written to iff it was connected and reachable, and evicted iff it was connected and unreachable |
| SocketServer.SweepKeepsExactlyActive | src/main/java/de/hrw/dsalab/distsys/chat/network/socket/SocketServerModule.java:138-153 | the sweep keeps a client iff it is active, and removes as many as are inactive |
| SocketServer.SocketServerModule.constructor | src/main/java/de/hrw/dsalab/distsys/chat/network/socket/SocketServerModule.java:83-97 | the server starts not alive and with no clients |
| SocketServer.SocketServerModule.Start | src/main/java/de/hrw/dsalab/distsys/chat/network/socket/SocketServerModule.java:105-133 | starts iff enabled, not already alive and the bind succeeds; otherwise `alive` keeps its value; the client list is untouched |
| SocketServer.SocketServerModule.AcceptClient | src/main/java/de/hrw/dsalab/distsys/chat/network/socket/SocketServerModule.java:158-176 | while enabled and alive, a fresh connected client for the peer is appended; otherwise nothing changes |
| SocketServer.SocketServerModule.Drop | src/main/java/de/hrw/dsalab/distsys/chat/network/socket/SocketServerModule.java:236-237 | the client is removed from the list by identity and disconnected |
| SocketServer.SocketServerModule.EvictAt | src/main/java/de/hrw/dsalab/distsys/chat/network/socket/SocketServerModule.java:145-148 | evicting the snapshot's client at `i` clears its flag in the list's mask, shortens the list by one and disconnects only that client |
| SocketServer.SocketServerModule.Broadcast | src/main/java/de/hrw/dsalab/distsys/chat/network/socket/SocketServerModule.java:226-240 | the list keeps every client except the connected unreachable ones, in order; the clients written to are the connected reachable ones, in order; exactly the evicted clients become disconnected |
| SocketServer.SocketServerModule.CleanDeadClients | src/main/java/de/hrw/dsalab/distsys/chat/network/socket/SocketServerModule.java:138-153 | the list keeps exactly the active clients in order; the count is the number removed; exactly the inactive clients become disconnected |
| SocketServer.SocketServerModule.Shutdown | src/main/java/de/hrw/dsalab/distsys/chat/network/socket/SocketServerModule.java:200-220 | when the shutdown sequence is granted, every client is disconnected, the list is empty and the server is not alive; otherwise nothing changes; the transport's consumers, last message and shutdown flag are never changed |
| SocketServer.SocketServerModule.Stop | src/main/java/de/hrw/dsalab/distsys/chat/network/socket/SocketServerModule.java:181-193 | does nothing when the server is disabled or not alive; otherwise it runs the shutdown: granted, every old client is disconnected, the list is empty and the server is not alive; refused, the list, `alive` and every client's flag are unchanged; the transport's consumers and last message are never changed |
| Rmi.ReachedOncePerSubscription | src/main/java/de/hrw/dsalab/distsys/chat/network/rmi/server/RmiServer.java:25-31 | a reachable subscriber gets one delivery per subscription and an unreachable one none |
| Rmi.RmiServer.constructor | src/main/java/de/hrw/dsalab/distsys/chat/network/rmi/server/RmiServer.java:17-21 | no subscribers |
| Rmi.RmiServer.Subscribe | src/main/java/de/hrw/dsalab/distsys/chat/network/rmi/server/RmiServer.java:35-38 | the callback is appended, duplicates allowed |
| Rmi.RmiServer.Unsubscribe | src/main/java/de/hrw/dsalab/distsys/chat/network/rmi/server/RmiServer.java:41-44 | the first equal subscription is removed |
| Rmi.RmiServer.NotifyClients | src/main/java/de/hrw/dsalab/distsys/chat/network/rmi/server/RmiServer.java:23-32 | every subscription is called in order; the identical payload reaches exactly the reachable ones, in order; a failure does not stop the rest |
| Rmi.RmiServer.SendMessage | src/main/java/de/hrw/dsalab/distsys/chat/network/rmi/server/RmiServer.java:47-51 | a REGULAR payload is fanned out as by NotifyClients; a short, control or unknown payload reaches no one; the subscriber list never changes |
| Rmi.SubscribeThenUnsubscribe | src/main/java/de/hrw/dsalab/distsys/chat/network/rmi/server/RmiServer.java:35-44 | subscribing a new callback and then unsubscribing it restores the list |
| Rmi.UnsubscribeDropsOneSubscription | src/main/java/de/hrw/dsalab/distsys/chat/network/rmi/server/RmiServer.java:41-44 | unsubscribing removes one subscription of that callback and leaves every other count alone |

## Left out

- Socket, datagram and RMI I/O; threads, timers and `synchronized` blocks. Every thread runs to completion one after another, so `stop` runs `shutdown` synchronously. `CopyOnWriteArrayList` iteration is modelled as a walk over a snapshot of the list.
- The busy-wait in `shutdownSequence` (AbstractNetwork.java:184-189) is a single step. `System.currentTimeMillis` is the parameter `now`.
- The message codec (Gson), `Message.toString`, `hashCode` and `getTravelTime`: they rely on a library outside this model or are not used by the core.
- `convertMillisTo` and the `$date$`/`$time$` texts (`SimpleDateFormat` and the time zone). The rendered date and time are parameters of `Render`/`GetMessage`.
- `User` is not part of this model. It is a uid string and a nick; `isSystem` compares the uid with the system user's, and `User.equals` is taken as structural equality.
- `Configuration` and the decoders: the configured user, the server flag and the bind outcome are parameters.
- `withDecoder`, `init` and `isServerEnabled` of AbstractNetwork: they only set or read a field.
- Networks.Network.Restart: the concrete transports' `start` and `stop` are not modelled; their effect on this state is given as parameters: whether `stop` announces the lost connection (the broadcast, multicast, RMI and socket transports do; the raw datagram transport's client `stop` is empty and does not), and which host `start` announces, if any (broadcast, RMI, socket and raw datagram do). An exception inside them is not modelled, including the connection-lost notice of a failed socket connect inside `start` (SocketClientModule.java:83-86), which these parameters cannot express.
- Logging and `printStackTrace`.
- The `Client.run` loop beyond one turn (`SocketServer.Client.Receive`): the wait for data, the byte-to-String-to-UTF-8 round trip, the decoding before broadcast, and the final disconnect notice.
- `UdpServerModule.start`/`stop` and the socket close in `SocketServerModule.shutdown`: only timer and socket plumbing.
- Exceptions other than failed writes, sends and binds, such as `ex.getMessage()` being null in `exceptionOccurred`.
- Messages.GetMessage: the resolved type is written back into a returned copy of the message rather than into the object in place; `Message` is a value here.
- JavaText.UpperCase: case mapping covers ASCII letters only, not Java's full Unicode case folding.
- Rmi.RmiServer.NotifyClients: subscribers are compared as values (equal references denote the same remote object), and the outcome of each remote call is an oracle set.

## Findings

| source | as written | input that shows it | evidently intended | confidence | as-written member | corrected member |
|---|---|---|---|---|---|---|
| src/main/java/de/hrw/dsalab/distsys/chat/network/udp/raw/UdpServerModule.java:108-115 | each dead container of the snapshot removes the first container with an equal address (`remove` uses address-only equality), which may be a different, live container | peer A sends CONNECT twice at 0 ms and data at 400000 ms, and the sweep runs at 400001 ms: the live record (400000) is removed and the dead one (0) stays | remove exactly the dead containers and keep every live one | not executed | UdpServer.SweepAsWrittenDropsLivePeer | UdpServer.UdpServerModule.CleanDeadClientsCorrected |
