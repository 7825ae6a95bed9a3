# A verified model of the SSN messaging core

SSN is an IPC framework in C: clients and servers exchange framed messages over byte streams, and on top of
the frames run remote calls, subscriptions and publications. This project models its core in Dafny and proves
what that core is for.

- `Frame`, `Stream`, `Sender`: the 15-byte header, the frame codec, the buffered stream parser and the
  partial-write send loop. The reference is a greedy parse of the whole byte stream.
- `Bitmap`, `Pending`, `PendingSafety`, `PendingPool`: the client's pending requests. `Pending` gives every
  locked section as a step on values together with a history of registrations, `PendingSafety` proves what all
  runs keep, `PendingPool` is the mutable form: 32 bitmap words, 1024 slots, 65536 table entries.
- `Lifecycle`: closing, referencing and releasing a client while the timer scans, as an interleaving of steps.
- `Lists`, `Chains`: the intrusive list macros and singly linked chains, at the level of the pointers they rewrite.
- `Connections`, `ConnectionSafety`, `ClientLists`, `Server`: the server's clients. `Connections` gives every step
  on values, `ConnectionSafety` proves what all runs keep, `ClientLists` holds the hash chains and the timer list
  as linked nodes with a record of which nodes were freed, and `Server` runs the steps on them.
- `Dispatch`, `DispatchSafety`, `DispatchMeaning`, `Dispatcher`: method registration and lookup against a flat
  registry, what lookup means in terms of the history alone, and the same on linked nodes, the queue's tail pointer
  included.
- `Rpc`, `RpcPool`: the pending calls of the RPC protocol layer, with 16-bit numbers and nanosecond deadlines.
- `HashTable`: the chained hash table against a map, on linked nodes.
- `Common`, `Urls`, `Probing`: shared constants, subscription and prefix patterns, and linear probing of a cyclic
  number range.

The pattern is the same throughout. Functions say what one step does to a value; classes hold the fields the
program updates in place, and each method is proved to perform exactly that step; lemmas then state what holds
over every run. The transport, the clock and the user's callbacks are parameters: a transport is any sequence of
send and poll outcomes, a callback is any predicate on the packets delivered so far. A section under a lock is
one step, and so is the handling of one received packet.

Where the code does not meet a property that its design suggests, the model does what the code does:

- Requests without a callback draw their numbers from a second counter over the same 16 bits, so their
  acknowledgements can take another request's slot. `PendingSafety.StrayAckMutesARequest` is the example,
  `PendingSafety.AckHarmlessExactly` the exact condition.
- A reply or a ping cancellation that arrives 65536 or more registrations late can hit a stranger.
  `PendingSafety.ReplyReachesItsRequest` and `PendingSafety.CancelHitsItsPing` say exactly when;
  `Rpc.ReplyHitsExactly` does so for the protocol layer.
- Removing the last prefix method leaves the queue's tail pointing at a freed node, and the next prefix to be
  added is written through it. `Dispatcher.AddAfterRemove` is the example on the program's own lists, and
  `Dispatcher.Dispatcher.AddMethod` states the exact condition on histories.
- A client reference may be taken, or a close begun, only while the count is positive:
  `Lifecycle.RefNeedsPositiveCount`, `Lifecycle.CloseAfterFree` and `Lifecycle.CloseNeedsPositiveCount`.

## Model

| member | source | states |
|---|---|---|
| Frame.HeaderDecodesBack | src/ssn_frame.h:111-119 | Reading the packed big-endian header gives back every field that was written, whatever follows it. |
| Frame.HeaderEncodesBack | src/ssn_frame.h:111-119 | Writing the fields read from any 15 bytes restores those bytes. |
| Frame.HeaderLayout | src/ssn_frame.h:109-119 | Byte by byte: magic, version and type at 0 to 2, then status, URL length, number and data length at 3, 7, 9 and 11, each with its most significant byte first. |
| Frame.AcceptedLayout | src/ssn_frame.c:18-43 | A stream is accepted exactly if it has 15 bytes, the first two are 0x09 and 0x02, and the lengths at 7 and 11, read most significant byte first, add up to at most 131057; its packet is 15 bytes longer. |
| Frame.MessageLayout | src/ssn_frame.c:98-129 | The bytes of an encoded message: the fixed fields at their offsets in network order, the URL from offset 15 and the data behind it, and nothing else. |
| Frame.TotalLengthPrefix | src/ssn_frame.c:18-43 | Validation and the packet length depend on the first 15 bytes only. |
| Frame.SlicesInBounds | src/ssn_frame.c:215-239 | On an accepted packet the URL and data slices lie inside it and, with the header, make up its length. |
| Frame.EncodedLength | src/ssn_frame.c:18-43 | The length check takes exactly one encoded message off the front of any stream. |
| Frame.DecodeOfEncode | src/ssn_frame.c:98-129 | A message within the size limits is read back with equal type, status, number, URL and data. |
| Frame.EncodeOfDecode | src/ssn_frame.c:215-254 | The decoder accepts nothing but encoder output: encoding what was decoded restores the bytes. |
| Frame.SameLengths | src/ssn_frame.c:18-43 | A header is accepted if and only if magic and version are right and the sender would have let its lengths through. |
| Stream.SettledIsShort | src/ssn_frame.c:301-317 | Bytes the parser is waiting on are always fewer than one maximum packet. |
| Stream.ParseAppend | src/ssn_frame.c:258-337 | Parsing can be suspended at any byte: parsing a prefix and then what it left with the rest is parsing the whole; an error or a stop is final. |
| Stream.FragmentationIndependent | src/ssn_frame.c:258-337 | However a stream is cut into chunks, packets delivered, bytes left and outcome are those of one greedy parse of the whole. |
| Stream.ParseStopped | src/ssn_frame.c:319-328 | Parsing ends in a stop if and only if the callback refused the last packet delivered. |
| Stream.ParseOfEncodeAll | src/ssn_frame.c:258-337 | Parsing encoded messages followed by an unfinished frame delivers those messages one by one up to a stop and leaves the unfinished frame. |
| Stream.PieceSettles | src/ssn_frame.c:301-317 | A frame cut short anywhere is waited on, never rejected. |
| Stream.EndToEnd | src/ssn_frame.c:258-337 | Messages on the wire, received in any pieces, come out as those messages in order, all of them if the callback never stops, with nothing but an unfinished frame left. |
| Stream.StreamContext.constructor | src/ssn_frame.c:207-213 | A fresh context has nothing pending. |
| Stream.StreamContext.Compact | src/ssn_frame.c:276-284 | Moving the unparsed bytes to the front of the buffer keeps them as they were. |
| Stream.StreamContext.Append | src/ssn_frame.c:295-298 | Copied input follows the unparsed bytes, which are unchanged. |
| Stream.StreamContext.Extract | src/ssn_frame.c:301-333 | Taking packets off the read offset agrees with the greedy parse of the pending bytes and of any input still to come. |
| Stream.StreamContext.Feed | src/ssn_frame.c:258-337 | The buffered parser delivers the packets of the greedy parse, keeps exactly its remainder, and returns false only for an invalid header; the full-buffer failure cannot be reached. |
| Stream.StreamContext.FeedAll | src/ssn_frame.c:258-337 | A session of chunks of any sizes, up to the first error or stop, equals one greedy parse of their concatenation. |
| Sender.SendLoop | src/ssn_frame.c:139-186 | For every transport behaviour the loop ends; it emits a prefix of the frame, the whole frame exactly when it reports success; it waits 100 ms a time, in all never more than the transport's send timeout, or 5000 ms if none is set; it gives up only when a send fails or takes nothing, waiting fails or has no descriptor, or that time is spent. |
| Sender.CreateHeader | src/ssn_frame.c:192-205 | The buffer starts with the encoded header for that type, status and number, with both lengths zero: 0x09, 0x02, the type, and the status and number in network order, each byte stated. |
| Sender.SetLengths | src/ssn_frame.c:73-113 | Overwriting the two length fields in place yields the header with those lengths and nothing else changed. |
| Sender.Assemble | src/ssn_frame.c:73-129 | A request is refused exactly when a length is out of range or a length comes without bytes; otherwise the buffer holds the encoding of the message described. |
| Sender.SendMessage | src/ssn_frame.c:67-186 | A refused message puts nothing on the wire; an accepted one puts a prefix of its encoding there, all of it exactly when success is reported; the waiting stays within the send timeout, or 5000 ms if none is set. |
| Sender.SendOne | src/ssn_frame.c:67-205 | A message outside the size limits puts nothing on the wire; another puts a prefix of its encoding there, all of it exactly on success. |
| Sender.SendAll | src/ssn_frame.c:67-186 | Over any list of messages, refused ones in between included, the wire carries the encodings of exactly those reported as sent, in order, and then at most a proper prefix of the one the transport failed on. |
| Sender.RoundTrip | src/ssn_frame.c:67-337 | The running sender and the running receiver back to back: under any partial writes and any cutting on receipt, the messages reported as sent are received, each once, in order, field by field, with only the unfinished frame left. |
| Bitmap.BitUpdate | src/ssn_client.c:158-160 | Setting or clearing one bit of a word changes that bit and no other. |
| Bitmap.BitsUpdate | src/ssn_client.c:351-370 | The word operations on the 32 words are single updates of a sequence of 1024 flags. |
| Bitmap.Test | src/ssn_client.c:158-160 | The bit test reads the flag of that slot. |
| Bitmap.Alloc | src/ssn_client.c:1281-1300 | Allocation returns the least free index and marks it, and fails exactly when all 1024 are taken. |
| Bitmap.Clear | src/ssn_client.c:367-369 | Clearing a slot's bit leaves every other flag alone. |
| PendingSafety.StepKeepsInv | src/ssn_client.c:326-370 | Every step keeps slots, table, bitmap and history consistent, also past the wrap-around of numbers. |
| PendingSafety.PlayKeepsInv | src/ssn_client.c:326-370 | In every reachable state live slots agree with the request they hold, requests in flight sit in exactly one slot, and the table leads to the latest owner of a number. |
| PendingSafety.LookupFindsTaker | src/ssn_client.c:326-343 | A number leads to the newest request that drew it if that one is in flight, and to nothing otherwise. |
| PendingSafety.ReplyEffect | src/ssn_client.c:1109-1163 | A packet with a given number changes the fate of exactly the newest request of that number if it is in flight, answering or silencing it by type, and otherwise changes nothing. |
| PendingSafety.ReplyByType | src/ssn_client.c:1084-1163 | By the type a request was sent with: a call is answered by packets of type 0x01 only, any other request by types 0x02, 0x03 and 0xFF; so a reply of its own type answers it, and every other type but 0x04 and 0x05 frees its slot without calling back. |
| PendingSafety.PublicationsAnswerNothing | src/ssn_client.c:1115-1121 | Publications and messages, types 0x04 and 0x05, leave the pool and the history as they are, whatever number they carry. |
| PendingSafety.ReplyReachesItsRequest | src/ssn_client.c:1109-1163 | Within 65536 later registrations a reply answers its own request or, if that is gone, is dropped; a later one hits a stranger if and only if the newest request of the number is in flight. |
| PendingSafety.CancelHitsItsPing | src/ssn_client.c:1514-1525 | The same for a ping that gives up: it cancels itself or nothing, and a stranger exactly in the wrapped case. |
| PendingSafety.PlainNumbers | src/ssn_client.c:1256-1273 | Requests without a callback are numbered 1 to 65535 over and over, whatever else is registered. |
| PendingSafety.AckHarmlessExactly | src/ssn_client.c:1132-1155 | An acknowledgement with a given number changes nothing if and only if no request in flight is the newest of that number. |
| PendingSafety.StrayAckMutesARequest | src/ssn_client.c:1256-1273 | The acknowledgement of a subscription sent before two calls frees the slot of the second without calling it back. |
| PendingSafety.TableMatchesBitmap | src/ssn_client.c:351-370 | A table entry always leads to a live slot with that number; while all requests in flight are young, table entries and live slots correspond one to one. |
| PendingSafety.LeavesOnce | src/ssn_client.c:582-616 | A request that has left the pool keeps its fate in every continuation of the run. |
| PendingSafety.Conservation | src/ssn_client.c:582-616 | Registrations equal live slots plus requests answered, silenced, timed out, flushed, cancelled and failed to send. |
| PendingSafety.CounterAfterTicks | src/ssn_client.c:192-213 | After k ticks the counter shows the timeout less 50k, not below zero, and is zero exactly from ceil(timeout/50) ticks on. |
| PendingSafety.PlayKeepsWoken | src/ssn_client.c:192-213 | Whenever a request has run out during a tick, the event is signalled until a poll drains it. |
| PendingSafety.PollTimesOut | src/ssn_client.c:1216-1245 | An event-ready poll times out a request exactly when its periods are over, and after a poll none that ran out during a tick is left. |
| PendingSafety.TickRaises | src/ssn_client.c:192-213 | A tick signals exactly if the event was ready or a request in flight has now lasted its periods of 50 ms. |
| PendingSafety.RegisterRecords | src/ssn_client.c:1315-1383 | While a slot is free, a request is recorded with its type, its timeout modulo 2^32 and the current time; if sending failed no slot is taken. |
| PendingSafety.RequestTimesOut | src/ssn_client.c:192-213 | From the registration's own timeout: a request still in flight when a poll finds the event ready is timed out if and only if ceil(timeout/50) ticks have passed since it was registered, the timeout taken in 32 bits. |
| PendingSafety.FlushEmptiesPool | src/ssn_client.c:582-623 | After a flush no slot is taken and nobody is in flight; exactly the requests that were in flight are flushed, and all others keep their outcome. |
| PendingPool.PendingPool.constructor | src/ssn_client.c:380-429 | A new client is in the initial state of the runs. |
| PendingPool.PendingPool.FreeIndex | src/ssn_client.c:351-370 | Freeing clears the slot's bit, and the table entry only if it still leads to this slot. |
| PendingPool.PendingPool.Snapshot | src/ssn_client.c:326-343 | Returns the live slot a number leads to, or nothing. |
| PendingPool.PendingPool.ClaimSlot | src/ssn_client.c:1339-1369 | Takes the least free slot with the next number and a truncated timeout, or changes nothing when all are taken. |
| PendingPool.PendingPool.Register | src/ssn_client.c:1315-1383 | Performs the register step; nothing is registered exactly when all 1024 slots are taken; a request that was sent is recorded with its type, its timeout modulo 2^32 and the time, and a failed send leaves the bitmap as it was. |
| PendingPool.PendingPool.PlainSeqno | src/ssn_client.c:1256-1273 | Performs the step of the second counter and returns its number, never 0. |
| PendingPool.PendingPool.Input | src/ssn_client.c:1109-1163 | Performs the reply step; a reply of the type a request was sent with, to the newest of its number in flight, calls that request back; whoever is called back was in flight and is the one answered; types 0x04 and 0x05 change nothing. |
| PendingPool.PendingPool.Tick | src/ssn_client.c:192-213 | Performs the tick step on every live slot and signals exactly when one has run out. |
| PendingPool.PendingPool.Collect | src/ssn_client.c:582-616 | Frees exactly the due slots and returns all their owners in slot order; the collecting array has room for them. |
| PendingPool.PendingPool.PollEvent | src/ssn_client.c:1236-1245 | Performs the poll step; if the event was ready, exactly the requests in flight whose periods are over are called back, once each, and otherwise nobody. |
| PendingPool.PendingPool.Flush | src/ssn_client.c:619-623 | Calls back exactly the requests in flight, once each; afterwards no slot is taken and nobody is in flight. |
| PendingPool.PendingPool.CancelPing | src/ssn_client.c:1514-1525 | Performs the cancel step. |
| Lifecycle.StepKeepsInv | src/ssn_client.c:232-312 | Every step keeps the count equal to the references held, and free-or-about-to-free equal to the count being zero. |
| Lifecycle.NoUseAfterFree | src/ssn_client.c:184-215 | In no interleaving of any number of threads does a step, the timer's included, touch a freed client, but for a close begun without a reference. |
| Lifecycle.CloseAfterFree | src/ssn_client.c:492-522 | A second thread that closes after the first has freed the client locks a freed client. |
| Lifecycle.CloseNeedsPositiveCount | src/ssn_client.c:492-522 | A close begun now can find the client freed by threads already about to free it if and only if the count is zero. |
| Lifecycle.StaysClosed | src/ssn_client.c:492-522 | A closed client never becomes valid again. |
| Lifecycle.CloseIsOnce | src/ssn_client.c:492-522 | Every close after the first, whatever happened in between, changes nothing. |
| Lifecycle.FreedOnceAfterLastHolder | src/ssn_client.c:247-312 | The client is freed and unlinked at most once, freed only after close, unlinking and the last holder, and freed once a closed client is at rest. |
| Lifecycle.RefNeedsPositiveCount | src/ssn_client.c:232-240 | One more reference taken and dropped keeps the client freed at most once if and only if the count was positive. |
| Lists.InsertToHeader | src/ssn_list.h:13-21 | Forward and backward pointers spell out the old list with the node in front. |
| Lists.DeleteFromList | src/ssn_list.h:23-32 | The list is the old one without the node, which no pointer of the list reaches and which points nowhere; the node must have been in the list. |
| Lists.InsertToFifo | src/ssn_list.h:69-80 | With a good tail the node becomes the last of the queue; a tail outside the queue is written through, and a queue that is not empty keeps its nodes. |
| Lists.InsertInto | src/ssn_list.h:13-21 | Inserting into one of several lists leaves the pointers of the others alone. |
| Lists.AppendInto | src/ssn_list.h:69-80 | Appending to one of several lists with a good tail leaves the others alone. |
| Lists.DeleteFrom | src/ssn_list.h:23-32 | Deleting from one of several lists leaves the pointers of the others alone. |
| ClientLists.TimerList.Link | src/ssn_server.c:252-254 | A new client's node is first in a well-formed list of nodes of live clients. |
| ClientLists.TimerList.Unlink | src/ssn_server.c:1309-1313 | The list stays well formed without the client's node, and the order of the others is kept. |
| ClientLists.TimerList.Free | src/ssn_server.c:277-286 | A client's node is unlinked exactly if the flag says it is in the list, and then freed; no freed node can be reached from the list. |
| ClientLists.ClientTable.Link | src/ssn_server.c:248-250 | A new client's node is first in the chain of its hash; all chains stay well formed. |
| ClientLists.ClientTable.Unlink | src/ssn_server.c:271-286 | A client's node leaves its chain and is freed; no freed node can be reached from any chain. |
| ClientLists.Roster.Destroy | src/ssn_server.c:261-288 | Both nodes of a client go, each unlinked exactly where it was linked; both lists stay well formed and reach no freed node. |
| Urls.PrefixIsSubtree | src/ssn_server.c:1278-1284 | A prefix matches the path itself and what continues it with a slash, nothing else. |
| Urls.SubscriptionMeaning | src/ssn_server.c:341-362 | A subscription to the root takes every URL, one with a trailing slash its subtree and the bare path, any other only itself. |
| Urls.MatchesWhatItCovers | src/ssn_server.c:341-362 | A rooted subscription matches exactly what it promises to cover: everything, the path and all below it, or itself. |
| Urls.SubAndPrefixAgree | src/ssn_server.c:341-362 | Subscriptions and prefix methods accept the same URLs for a trailing-slash pattern longer than one character. |
| Probing.TakenBound | src/ssn_server.c:229-239 | A run of k consecutive taken numbers needs k distinct taken numbers. |
| Probing.Skipped | src/ssn_server.c:229-239 | Probing skips at most as many candidates as numbers are taken, all of them taken, and ends on a free one. |
| Probing.DrawnInOrder | src/ssn_server.c:229-239 | Every number between the counter and the one drawn, across wrap-around, is taken. |
| ConnectionSafety.StepKeepsInv | src/ssn_server.c:244-288 | Accepting, a packet, peer close, a tick and expiry each keep table, timer list, linking rule, wake-up rule and subscriptions. |
| ConnectionSafety.ServerInvariant | src/ssn_server.c:1614-1660 | In every reachable state each live client is once in the bucket of its id, the timer list is exactly the linked live clients, with keepalive all are linked and without it exactly those before their handshake, and the limit holds. |
| ConnectionSafety.NotDestroyedEarly | src/ssn_server.c:161-184 | A silent linked client is still there, with the counter its ticks imply, as long as fewer than ceil(alive/50) ticks passed. |
| ConnectionSafety.NeverExpires | src/ssn_server.c:1460-1466 | Over any run in which each gap between packets of a linked client is shorter than the periods of its counter, it is never destroyed by the timer, and its counter is what it was last set to less 50 for each tick since. |
| ConnectionSafety.NoIdleTimer | src/ssn_server.c:1306-1314 | Without keepalive a client that has shaken hands leaves only by hanging up, over any run. |
| ConnectionSafety.SubsRefineSet | src/ssn_server.c:1362-1426 | Under every history of messages the list has no duplicates and its members are the set that subscribing and unsubscribing amount to. |
| ConnectionSafety.SubsOfClient | src/ssn_server.c:1362-1426 | In every reachable state the subscriptions of every live client are, without duplicates, the set its messages since it was accepted amount to. |
| ConnectionSafety.DestroyedWhenDue | src/ssn_server.c:1624-1637 | A client silent for ceil(alive/50) ticks has the event raised and is destroyed by the next event-ready poll, whatever it sends in between, unless that is its handshake or it hangs up. |
| ConnectionSafety.StaysDue | src/ssn_server.c:1460-1466 | A client whose counter has run out is not saved by any packet but a handshake: the counter stays at zero until the poll that destroys it. |
| ConnectionSafety.AcceptStarts | src/ssn_server.c:244-256 | A newly accepted client is on the timer list with the handshake time on its counter and no subscriptions, and the id counter stands behind its id. |
| ConnectionSafety.HandshakeNotCutShort | src/ssn_server.c:244-256 | From the accept event of any run: a client that then stays silent is still there as long as fewer than ceil(handshake/50) ticks passed. |
| ConnectionSafety.HandshakeRunsOut | src/ssn_server.c:1614-1641 | From the accept event of any run: a client silent for that many ticks has the event raised and is destroyed by the first event-ready poll after them, unless its handshake still comes in or it hangs up before. |
| ConnectionSafety.HandshakeSwitches | src/ssn_server.c:1295-1316 | A handshake gives the client its whole keepalive in milliseconds, or takes it off the timer list if there is no keepalive. |
| ConnectionSafety.TickRaises | src/ssn_server.c:161-184 | A tick raises the event exactly if it was raised or a client on the timer list had 50 ms or less. |
| ConnectionSafety.ChainOfId | src/ssn_server.c:212-224 | In every reachable state a chain holds an id if and only if it is live and its remainder modulo 64 is the number of the chain. |
| ConnectionSafety.PublicationReaches | src/ssn_server.c:857-893 | In every reachable state a publication is for exactly those live clients whose messages since they were accepted leave them with a subscription that covers its URL. |
| Server.Server.constructor | src/ssn_server.c:364-467 | A new server has no clients. |
| Server.Server.Find | src/ssn_server.c:212-224 | The walk along the chain finds an id exactly when it is there. |
| Server.Server.DrawId | src/ssn_server.c:229-239 | The id is free, every id from the counter up to it, across 32-bit wrap-around, is taken, and the counter moves behind it. |
| Server.Server.CountClients | src/ssn_server.c:1578-1585 | The walk along all chains counts each live client once. |
| Server.Server.InitClient | src/ssn_server.c:244-256 | A client with a fresh id and the handshake timer is linked first in its chain and in the timer list. |
| Server.Server.AcceptConnection | src/ssn_server.c:1578-1602 | Performs the accept step; refused exactly at the limit, and otherwise one more client is live, with the handshake time on its counter; all lists stay well formed. |
| Server.Server.DestroyClient | src/ssn_server.c:261-288 | The client leaves its chain and, if linked, the timer list, and both its nodes are freed; the lists stay well formed and reach no freed node. |
| Server.Server.PeerClosed | src/ssn_server.c:1534-1559 | Performs the close step and frees the client's nodes. |
| Server.Server.TickNodes | src/ssn_server.c:161-184 | The walk along the timer list counts every client on it down once, and asks for the wake-up exactly when one has run out. |
| Server.Server.TimerTick | src/ssn_server.c:161-184 | Performs the tick step. |
| Server.Server.ExpireNode | src/ssn_server.c:1624-1637 | A node whose time is up is unlinked, destroyed and freed after its successor was read; any other is left alone. |
| Server.Server.SweepNodes | src/ssn_server.c:1624-1637 | Destroying while walking the timer list removes exactly the clients that have run out, from list and chains, and never follows a freed node. |
| Server.Server.HandleEvent | src/ssn_server.c:1614-1641 | Performs the expiry step if the event is ready, which it is not afterwards. |
| Server.Server.HandleSubscribe | src/ssn_server.c:1362-1397 | A rooted URL is subscribed once; any other is refused and changes nothing. |
| Server.Server.HandleUnsubscribe | src/ssn_server.c:1399-1426 | Walking the list drops a rooted URL; any other URL drops all subscriptions of the client. |
| Server.Server.Receive | src/ssn_server.c:1439-1505 | Performs the packet step; a subscription is acknowledged as good exactly when its URL is rooted. |
| Server.Server.SubMatch | src/ssn_server.c:341-362 | The list walk succeeds exactly when some subscription matches. |
| Server.Server.Publish | src/ssn_server.c:857-893 | One send is attempted to each live client with a subscription that covers the URL and none to others; the active test leaves no subscriber out; an unrooted URL is refused. |
| DispatchSafety.HistoryRepresents | src/ssn_server.c:934-968 | After every history the buckets and the queue hold exactly the surviving registrations, each bucket newest first and the queue oldest first. |
| DispatchSafety.DispatchAgrees | src/ssn_server.c:1267-1287 | After every history bucketed lookup gives the newest surviving exact method, else the oldest surviving prefix at a segment boundary, else the default. |
| DispatchMeaning.SurvivorsSurvive | src/ssn_server.c:987-1041 | What the i-th operation registered is still in the registry if and only if the removals of its URL since were never more than the newer registrations, for an exact URL, or are no more than the older ones that were left, for a prefix. |
| DispatchMeaning.DispatchMeans | src/ssn_server.c:1267-1287 | On the history alone: a URL goes to its newest surviving registration, else to the oldest surviving prefix that it begins with or is without the slash, else to the default set last if it was not removed since. |
| DispatchSafety.RemoveUndoesAdd | src/ssn_server.c:1003-1032 | A new exact method shadows the old one, and removing it restores what every URL was dispatched to before. |
| DispatchSafety.LostLastSnoc | src/ssn_server.c:1019-1028 | The last prefix of the queue was ever removed exactly if it was before, or this operation removes what is now the last. |
| DispatchSafety.PrefixAfterRemovalUnsafe | src/ssn_server.c:1019-1028 | Adding a prefix, removing it and adding any prefix is an unsafe history. |
| Dispatcher.Dispatcher.UrlHash | src/ssn_server.c:198-207 | The loop over every other character computes the bucket number. |
| Dispatcher.Dispatcher.AppendPrefix | src/ssn_server.c:962-963 | A freed node is written to exactly when the tail names one; otherwise the command becomes the last of the queue. |
| Dispatcher.Dispatcher.AddMethod | src/ssn_server.c:917-979 | From any valid state, adding a method writes to a freed node if and only if the history becomes unsafe: a prefix is added after the last prefix of the queue was removed. Otherwise the lists hold what the history says; unrooted URLs are refused. |
| Dispatcher.Dispatcher.FindCmd | src/ssn_server.c:1019-1031 | The walk finds the first command of that URL, and none if there is none. |
| Dispatcher.Dispatcher.DeleteCmd | src/ssn_server.c:1026-1038 | The node leaves its list and is freed; all lists stay well formed; the queue's tail is not touched. |
| Dispatcher.Dispatcher.RemoveMethod | src/ssn_server.c:987-1041 | One method of that URL goes, keeping the lists those of the history; the tail names a freed node exactly from the first removal of a last prefix on. |
| Dispatcher.Dispatcher.CmdMatch | src/ssn_server.c:1267-1287 | Lookup along the live lists returns what the flat registry of the history prescribes: the newest surviving registration of the URL, else the oldest surviving prefix it lies under, else the default. |
| Dispatcher.AddAfterRemove | src/ssn_server.c:934-968 | On a new server, adding a prefix method, removing it and adding another writes to the freed node. |
| Rpc.AddMsExact | src/protocol/rpc/ssn_rpc.c:236-246 | The deadline is exactly start plus timeout in nanoseconds, and normalised. |
| Rpc.ReachedIsOrder | src/protocol/rpc/ssn_rpc.c:361-379 | The seconds-then-nanoseconds test is the order of instants. |
| Rpc.PlayKeepsInv | src/protocol/rpc/ssn_rpc.c:202-269 | In every reachable state entries in use carry pairwise distinct numbers and each waiting call sits in an entry with its exact deadline. |
| Rpc.CandidatesSuffice | src/protocol/rpc/ssn_rpc.c:221-234 | Of 257 consecutive candidates one is always free, the stale number of the fresh entry counted: the failure branch cannot be reached. |
| Rpc.CompletedOnce | src/protocol/rpc/ssn_rpc.c:299-328 | A call that was completed keeps its outcome in every continuation. |
| Rpc.ReplyCompletesOne | src/protocol/rpc/ssn_rpc.c:299-328 | A reply to a held number completes exactly the call holding it. |
| Rpc.StrayReplyIgnored | src/protocol/rpc/ssn_rpc.c:299-328 | A reply to a number nobody holds changes nothing. |
| Rpc.ReplyHitsExactly | src/protocol/rpc/ssn_rpc.c:299-328 | However late, a reply to a call completes it if it still waits, another call exactly if that one waits under the same number, and otherwise changes nothing. |
| Rpc.SweepExpiresExactly | src/protocol/rpc/ssn_rpc.c:361-379 | A waiting call expires in a sweep if and only if start plus timeout has been reached, and is otherwise untouched. |
| Rpc.BeginRecords | src/protocol/rpc/ssn_rpc.c:202-269 | While an entry is free, a call is recorded with the caller's start and timeout, 5000 ms if that was 0, waiting if it was sent. |
| Rpc.BeginDraws | src/protocol/rpc/ssn_rpc.c:221-234 | A call draws a number that no entry in use carries, and the counter moves behind it. |
| Rpc.FailedBeginHoldsNothing | src/protocol/rpc/ssn_rpc.c:255-269 | A call that could not be sent leaves the entries in use as they were. |
| Rpc.CallExpires | src/protocol/rpc/ssn_rpc.c:236-246 | From the call's own arguments, over any run: a call begun with timeout ms that still waits expires in a sweep if and only if ms milliseconds, or 5 s for ms = 0, have passed since its start. |
| RpcPool.RpcPool.Find | src/protocol/rpc/ssn_rpc.c:28-36 | Returns the first entry in use with that number, or none exactly when there is none. |
| RpcPool.RpcPool.AllocSlot | src/protocol/rpc/ssn_rpc.c:38-47 | Takes the first free entry and keeps its stale number, or fails exactly when all 256 are in use. |
| RpcPool.RpcPool.DrawSeqno | src/protocol/rpc/ssn_rpc.c:221-234 | Draws the first number from the counter on that no entry in use carries; the search always succeeds. |
| RpcPool.RpcPool.Begin | src/protocol/rpc/ssn_rpc.c:202-269 | Performs the call step; succeeds exactly when one of the 256 entries was free and the send succeeded, and otherwise leaves the entries in use as they were. |
| RpcPool.RpcPool.HandleReply | src/protocol/rpc/ssn_rpc.c:299-328 | Calls back the one call that carries the number, and nobody if there is none. |
| RpcPool.RpcPool.SweepExpired | src/protocol/rpc/ssn_rpc.c:361-379 | Calls back exactly the due calls, once each, and frees their entries. |
| HashTable.DefaultCapacity | src/util/ssn_hash_table.c:24-31 | The least power of two that is at least 16 and at least the request. |
| HashTable.HashString | src/util/ssn_hash_table.c:308-322 | The loop computes the number that has 5381 and then the signed characters as digits to base 33, modulo 2^32; a NULL string hashes to 0. |
| HashTable.HashIsNumber | src/util/ssn_hash_table.c:308-322 | Reducing modulo 2^32 at every step equals reducing the base-33 number once. |
| HashTable.RepInsert | src/util/ssn_hash_table.c:131-140 | Linking a node at the head of its key's bucket represents the map with that entry added. |
| HashTable.RepRemove | src/util/ssn_hash_table.c:174-197 | Unlinking a node represents the map without its key. |
| Chains.Push | src/util/ssn_hash_table.c:138-139 | A node is first in its chain; the other chains are unchanged. |
| Chains.Cut | src/util/ssn_hash_table.c:190-194 | With the predecessor found on the way, the node leaves its chain; the other chains are unchanged. |
| Chains.Move | src/util/ssn_hash_table.c:100-110 | The first node of one chain becomes the first of another; all other links are unchanged. |
| HashTable.MoveChain | src/util/ssn_hash_table.c:98-111 | Relinking a chain puts each of its nodes into its bucket of the larger table; together with the chains before it they represent that part of the map. |
| HashTable.HashTable.constructor | src/util/ssn_hash_table.c:41-60 | A new table is the empty map. |
| HashTable.HashTable.Grow | src/util/ssn_hash_table.c:90-116 | Growth doubles the buckets, relinking every node into the bucket of its key, and leaves the map unchanged. |
| HashTable.HashTable.FindInt | src/util/ssn_hash_table.c:118-129 | The walk along the chain finds a node exactly when the integer key is in the map; string nodes are never taken for it. |
| HashTable.HashTable.FindStr | src/util/ssn_hash_table.c:246-261 | The walk along the chain finds a node exactly when a string with that content is in the map. |
| HashTable.HashTable.Set | src/util/ssn_hash_table.c:84-143 | Set is map update; the table grows exactly above three quarters load; the NULL key is refused. |
| HashTable.HashTable.Get | src/util/ssn_hash_table.c:145-164 | Get is map lookup, NULL when missing. |
| HashTable.HashTable.Remove | src/util/ssn_hash_table.c:166-200 | Remove deletes the key and reports whether it was there. |
| HashTable.HashTable.SetStr | src/util/ssn_hash_table.c:209-244 | Set on a string key is map update and never grows the table. |
| HashTable.HashTable.GetStr | src/util/ssn_hash_table.c:246-261 | Get on a string key is map lookup by content. |
| HashTable.HashTable.RemoveStr | src/util/ssn_hash_table.c:263-296 | Remove on a string key deletes it and reports whether it was there. |
| HashTable.HashTable.ContainsStr | src/util/ssn_hash_table.c:298-301 | True exactly for a string mapped to a value other than NULL. |

## Left out

- Transports, sockets, DNS and address parsing: a transport is any sequence of send and poll outcomes, and its emitted bytes are a log.
- Platform wrappers, mutexes, logging and global setup: a locked section is one step.
- Automatic reconnection (`src/ssn_cliauto.c`), the node and framework layers, and the pubsub and message protocol wrappers: they would only add easy members.
- Connecting a client, the polling of descriptor sets, tools and sample programs.
- Memory-allocation failure and NULL handles; NULL keys and NULL data references are modelled.
- Callbacks that call back into the library, and the two critical sections of one client input: one received packet is one step.
- What happens to a connection after a malformed stream: the server goes on reading where the parser reported an invalid header.
- A client's stream context is not reset by a reconnect, so the stream results are per context, not per connection.
- The release of a server: it tests its validity flag outside the lock; `Lifecycle` is about the client only.
- The connect callback, and that a client destroyed by the timer is never reported to it as gone.
- A client's fields and its list of subscriptions are values found by its id, where the program keeps them in one allocated record; the hash chains and the timer list are linked nodes.
- Lifecycle.NoUseAfterFree: takes new references only while the count is positive and leaves out closes begun without a reference, both left to callers by the program; `Lifecycle.RefNeedsPositiveCount` and `Lifecycle.CloseNeedsPositiveCount` show both conditions are needed.
- Dispatcher.Dispatcher.AddMethod: promises nothing about the lists after a write to a freed node, because the program's behaviour is then undefined.
- Lists.AppendInto: promises nothing about the lists when the tail is outside the queue, for the same reason.
- HashTable.HashTable.Set: a new integer node gets a NULL string key, as the node's declaration intends; the program leaves that field uninitialised.
- HashTable.HashTable.Grow: the load factor is compared exactly, not in single precision.
- HashTable.DefaultCapacity: does not model the wrap-around of a request above half the range of `size_t`, for which the program does not terminate.
- ConnectionSafety.NeverExpires: does not model overflow of the keepalive in milliseconds beyond 32 bits.
- Rpc.AddMsExact: does not model overflow of the seconds field.
- Sender.Transport: poll and send outcomes do not depend on what was sent, but any outcome can come at any call.
