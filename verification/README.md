# Verified models of the protocol engines of brickd

brickd routes packets between network clients and Tinkerforge hardware. This project models its protocol engines in
Dafny and proves what they promise over all inputs, all states or all runs. `dafny verify dfyconfig.toml` checks all of
it.

Each engine comes in two layers. A specification describes it on values (a link, a queue, a decoder) and carries the
theorems about whole runs. Methods and classes beside it work the way the C code does, on arrays, links, counters,
pointers and flags, and are proved to do what the specification says.

| files | engine |
|---|---|
| Pearson, SpiFrame, SpiLink, RedStack, SpiDiscovery, SpiBytes | the stop-and-wait protocol between a RED Brick and the slaves of its stack |
| Nodes, Pending, Routing, Lifetimes, Links, Network, Stack | pending requests: two intrusive lists per request, owner pointers, counters, zombies, response routing |
| Sha1Spec, Sha1Transform, Sha1, Sha1Vector, Hmac | SHA-1 (FIPS 180-4) and HMAC-SHA1 (RFC 2104) |
| WebsocketSpec, Websocket | the WebSocket frame decoder (RFC 6455), resumable at any byte |
| ClientSpec, ClientReach, Client, WebClient | request framing and authentication of a network client, also behind a WebSocket |
| UsbSpec, Usb | the scheduler of USB write transfers |
| Crc16, Rs485Spec, Rs485Bytes, Rs485Runs, Rs485Silence, Rs485Loss, Rs485 | the RS485 polling master and its checksum |
| Bytes, Counting | shared helpers |

## Assumptions

- SPI slaves: their firmware is not part of the repository. The model assumes that a slave echoes the master number of
  the last valid frame it accepted before the transfer, ignores a frame whose number equals that one, and keeps a
  response and its number until the number is echoed. Either direction of any transfer may be lost or corrupted, and a
  corrupted frame is assumed to be noticed; for a change of one byte other than the length byte that is proved
  (`SpiFrame.SingleByteCorruption`, `SpiBytes.ByteRunIsRun`). A reset puts both sides back into the power-on state.
- Containers: the daemon library is not part of the repository. Queues are FIFO (src/tests/queue_test.c:36-93), arrays
  hold items that do not move, lists behave as in src/tests/node_test.c:33-124, and a node that is removed from a list
  becomes a list of its own. A queue item that is pushed is zeroed.
- Packets: 8 bytes of header and at most 80 bytes in all (src/tests/ip_connection.h:142-154). Whether a header is valid
  and whether a response answers a request is decided by the daemon library and is a parameter; a valid header has a
  length of 8 to 80.
- Everything the environment decides is a parameter: what is received, whether a write, a submission or an allocation
  succeeds, whether a zombie can be set up, elapsed time, nonces.
- Plain `char` is unsigned, as on the ARM processor of the RED Brick. The RS485 extension keeps its last request in such
  an array (src/brickd/red_rs485_extension.c:183) and compares it with unsigned bytes; with a signed `char` no byte of
  128 or more would match, and `Rs485Spec.FrameIsEchoed`, `Rs485Spec.AnswerPasses` and
  `Rs485Loss.LateByteLosesRequest` would fail for frames with such bytes.
- A WebSocket frame that cannot be accepted counts as a read error of its client, whatever `errno` was before.
- Setting a timer fails without effect when its nanosecond part is a second or more, and a duration of zero disarms it.

## Where the code does not do what one might expect

- A read of the WebSocket decoder returns zero, which the client takes for a disconnect, after a frame without payload:
  `WebsocketSpec.ZeroExactly` says exactly when, `WebsocketSpec.EmptyFrameReadsAsDisconnect` gives an input.
- A close frame with payload before it in the same read goes unnoticed, and what is behind it in that read is dropped:
  `WebsocketSpec.CloseSwallowedExactly`.
- The checksum of an SPI frame does not protect its length byte (`SpiFrame.LengthByteUnprotected`).
- A client whose nonce request expects no response, or cannot be remembered, is never sent its nonce and still counts as
  having it: `ClientSpec.NonceAnsweredExactly` says exactly when, `ClientSpec.HardwareAfterResponseExactly` what that
  means for the hardware, and `ClientSpec.UnansweredNonceOpensHardware` gives packets.
- After a failed USB transfer later requests overtake the queue (`UsbSpec.FailedTransferOvertakes`,
  `UsbSpec.OvertakingHappens`); `UsbSpec.OrderExactly` says exactly when. Requests dispatched while the device is about to
  leave are not counted as dropped (`UsbSpec.RefusedExactly`).
- A poll delay of a second or more, which the option `poll_delay.rs485` allows (src/brickd/config_options.c:63), leaves
  the timer of the RS485 master off after the first poll that is not answered. `Rs485Runs.NeverStallsExactly` says exactly
  when the timer never rests; without it, only serial data makes the master go on (`Rs485Runs.StallLasts`).
- The result of the tenth probe of SPI discovery is never looked at (`SpiDiscovery.TenthProbeIgnored`).
- The RS485 master may drop a request that was never sent when bytes come in during the delay between polls, because the
  receive buffer is only cleared at the next poll: `Rs485Loss.LosesExactly` says exactly when,
  `Rs485Loss.LateByteLosesRequest` gives a run, and `Rs485Loss.NothingLostWithoutLateBytes` says that nothing is lost
  otherwise.

## Model

| member | source | states |
|---|---|---|
| Pearson.PositionOfPermutation | src/brickd/red_stack.c:62-81 | the table has a left inverse, so it is a permutation: every byte is found at the position that holds it |
| Pearson.CalculateHash | src/brickd/red_stack.c:266-275 | the loop computes the hash that is defined by recursion on the data, for data of every length |
| Pearson.HashDetects | src/brickd/red_stack.c:266-275 | for any permutation table, two sequences that differ in exactly one byte have different hashes: a step is injective in the state and in the byte |
| SpiFrame.WireRoundTrip | src/brickd/red_stack.c:310-430 | every frame of every legal length, put on the wire and checked on the other side, comes back as it was |
| SpiFrame.WireOnBytes | src/brickd/red_stack.c:310-344 | the wire form of a frame on its 84 bytes: preamble 0xAA, length, payload, both numbers in one byte, the hash of all before it, and zeros |
| SpiFrame.ParsedOnBytes | src/brickd/red_stack.c:387-430 | a buffer is taken for a frame if and only if its first byte is 0xAA, its length is 4 or 12 to 84 and the hash is right, and then for the payload and the two numbers in it |
| SpiFrame.ChecksumDetects | src/brickd/red_stack.c:408-430 | a checksummed frame with one other byte inside it fails the checksum |
| SpiFrame.SingleByteCorruption | src/brickd/red_stack.c:387-430 | of a valid buffer, a change of one byte other than the length byte is rejected if the byte belongs to the frame and without effect if it does not |
| SpiFrame.LengthByteUnprotected | src/brickd/red_stack.c:387-430 | the length byte is an exception: behind every empty frame there can be bytes that make it pass for a longer one once its length byte is changed |
| RedStack.BuildFrame | src/brickd/red_stack.c:310-344 | the transmit buffer holds the assembled frame: header, payload, sequence numbers, checksum and zeros behind |
| RedStack.CheckFrame | src/brickd/red_stack.c:356-430 | a received buffer is taken for exactly the frame it parses to; preamble, length and checksum errors and a failed or short transfer are nothing |
| RedStack.HandleFrame | src/brickd/red_stack.c:432-490 | the sequence number rules on a received frame: what is acknowledged, what is new, and the result bits that report it |
| RedStack.HandleError | src/brickd/red_stack.c:356-385 | what a transfer that received nothing usable leaves behind, empty or with data |
| RedStack.Transmit | src/brickd/red_stack.c:304-344 | the bytes sent are the wire form of the frame the link has to send |
| RedStack.Transceive | src/brickd/red_stack.c:291-494 | one full exchange: the new state of the link, the bytes sent, the payload received and the result code, for every outcome of the transfer; an unavailable slave is refused |
| RedStack.PollFromTransfer | src/brickd/red_stack.c:664-717 | the loop's reading of the result bits is the link rule: pop exactly when acknowledged, read exactly when something new came |
| RedStack.PollSlave | src/brickd/red_stack.c:664-717 | one pass of the polling loop does what the link model says about a transfer, including the forced empty frame |
| RedStack.OfferRequest | src/brickd/red_stack.c:524-542 | discovery offers the request until it is acknowledged, at most ten times, and not once more |
| RedStack.ProbeAnswer | src/brickd/red_stack.c:544-565 | discovery probes until there is an answer, at most ten times |
| RedStack.DiscoverSlave | src/brickd/red_stack.c:498-590 | a slave is available after discovery exactly when its request was acknowledged and answered within the tries |
| RedStack.SpiStack.constructor | src/brickd/red_stack.c:933-1010 | no slaves, and every link in its power-on state |
| RedStack.SpiStack.PollNext | src/brickd/red_stack.c:643-742 | the next slave in turn is polled, the others are left alone, and a response is handed on with the slave it came from |
| RedStack.SpiStack.DispatchToSpi | src/brickd/red_stack.c:871-908 | for every slave and every packet: the packet goes to the end of the queue if its first four bytes are zero or, otherwise, if the recipient entry names this slave; every other queue stays as it was |
| RedStack.SpiStack.HandleReset | src/brickd/red_stack.c:604-636 | all queues are discarded and all links are back in the power-on state |
| RedStack.SpiStack.CreateRoutingTable | src/brickd/red_stack.c:498-590 | each slave up to the first that does not answer is what its discovery makes of it; those before that one are available, it is not, and those behind it are left alone |
| SpiLink.OfferIsPoll | src/brickd/red_stack.c:524-542 | an offer during discovery is a poll of a link with that one request queued |
| SpiLink.EmptyTransfer | src/brickd/red_stack.c:444-459 | a transfer without data never counts as acknowledgement, and leaves the master with a number that is not the echoed one or with an empty frame due next |
| SpiLink.DataTransfer | src/brickd/red_stack.c:432-443 | a transfer with data is acknowledged exactly by an echo of the current number, and exactly then the number changes |
| SpiLink.AnyTransfer | src/brickd/red_stack.c:461-490 | a payload is delivered exactly when it comes with a new number, which is then the one acknowledged |
| SpiLink.RunKeeps | src/brickd/red_stack.c:291-494 | over every run of pushes, transfers, probes, answers and resets with any losses: the slave has taken the popped requests or one more, and its echo tells which; the master has dispatched the answered responses or one more |
| SpiLink.RequestsExactlyOnce | src/brickd/red_stack.c:664-706 | in every run the requests the slave took are, once each and in push order, the popped ones and at most the next |
| SpiLink.PopsOnlyTaken | src/brickd/red_stack.c:432-459 | in every run a request is popped only if the slave had taken that very request: no stale acknowledgement pops one |
| SpiLink.ResponsesExactlyOnce | src/brickd/red_stack.c:708-717 | in every run the responses dispatched are, once each and in order, those acknowledged and at most the current one |
| SpiLink.NeverStuck | src/brickd/red_stack.c:432-459 | from every reachable state at most four undisturbed transfers get the next request across |
| SpiLink.ResponsesGetAcross | src/brickd/red_stack.c:461-490 | in every run, once the slave knows that its last response has arrived, one undisturbed transfer gets the next one dispatched, and the one behind it lets the slave know |
| SpiLink.SlaveGetsReady | src/brickd/red_stack.c:432-490 | from every reachable state two undisturbed transfers make the slave ready for another response |
| SpiLink.NumbersCycle | src/brickd/red_stack.c:432-490 | both sides count through all eight numbers of their three bits and start again |
| SpiDiscovery.FramesSurviveWire | src/brickd/red_stack.c:310-430 | in every run the numbers of both sides stay within their three bits, so the next frame of the master, and each frame of the slave with a packet in it, is read back from its bytes as it was |
| SpiDiscovery.OffersAreRun | src/brickd/red_stack.c:524-542 | the offers of discovery are a stretch of a run: the master is in the same state, with the request in its queue until it is acknowledged |
| SpiDiscovery.ProbesAreRun | src/brickd/red_stack.c:544-565 | so are the probes |
| SpiDiscovery.DiscoveryIsRun | src/brickd/red_stack.c:498-590 | a slave that was found has taken the request exactly once, and polling starts in a state of a run, whatever was lost or corrupted on the way |
| SpiDiscovery.FoundExactly | src/brickd/red_stack.c:498-590 | a slave counts as found if and only if one of at most ten offers is acknowledged and an answer comes with it or with one of the nine probes behind it; offers and probes stop at the first |
| SpiDiscovery.TenthProbeIgnored | src/brickd/red_stack.c:544-565 | a bus on which the second offer is acknowledged and the tenth probe brings the answer, and the slave still counts as absent |
| SpiDiscovery.LateAnswerOnLink | src/brickd/red_stack.c:498-565 | that bus is a run of the link with a slave that keeps to its rules |
| SpiBytes.FrameOrNothing | src/brickd/red_stack.c:356-430 | of a buffer that arrives intact, not at all, or with one byte other than the length byte changed, the other side takes the frame as it was sent or nothing, and which of the two is decided exactly |
| SpiBytes.ByteRunIsRun | src/brickd/red_stack.c:291-494 | every run over such buffers, with both sides reading what arrives, is a run of the link |
| SpiBytes.ExactlyOnceOnBytes | src/brickd/red_stack.c:291-717 | so over buffers, too, requests and responses get across once each and in order |
| SpiBytes.PollIsByteStep | src/brickd/red_stack.c:664-717 | a pass of the polling loop is a step of such a run: the buffer it puts on the wire, the new state and what is handed on |
| Nodes.InsertBeforeAppends | src/tests/node_test.c:98-108 | inserting before the sentinel appends to the list and touches the links of no other list |
| Nodes.RemoveUnlinks | src/tests/node_test.c:112-124 | removing a node takes exactly that node out of the list and touches the links of no other list |
| Nodes.SpliceTakesOver | src/brickd/zombie.c:69-71 | a sentinel inserted behind the old one, which is then removed, has the whole list in the same order |
| Pending.OfWithout | src/brickd/client.c:332-345 | freeing a request takes it out of its owner's list, at its place, and out of no other list |
| Pending.OfRelabel | src/brickd/zombie.c:69-85 | when a zombie takes over, its list is the client's list, the client's is empty and all others are unchanged |
| Pending.FreedKeeps | src/brickd/client.c:332-345 | freeing keeps what holds of every reachable state |
| Pending.AddedKeeps | src/brickd/network.c:337-358 | a new request keeps it when its client has room |
| Pending.ZombifiedKeeps | src/brickd/zombie.c:41-88 | a take-over keeps it, and leaves the client without requests |
| Routing.TrimsOldest | src/brickd/network.c:324-335 | a client at the limit loses its oldest request and no other one; any other client loses none |
| Routing.ExpectedJoins | src/brickd/network.c:320-359 | a new request goes to the end of its client's list; a full list loses its head; nobody else's list changes |
| Routing.ExpectedKeeps | src/brickd/network.c:320-359 | the invariant and the limit of 32768 are kept, also when memory runs out |
| Routing.ToClientKeeps | src/brickd/client.c:448-515 | dispatching to a client keeps the invariant in every case: not authenticated, disconnected, forced, searched, refused by the writer |
| Routing.DropsExactly | src/brickd/network.c:133-158 | the walk that drops the requests for a UID frees all of them and no other; the rest keep order and owners |
| Routing.BroadcastOffersOnce | src/brickd/network.c:396-400 | a broadcast offers the response to every client in the array exactly once |
| Routing.OfferedExactly | src/brickd/client.c:448-515 | a response offered without search is written if and only if the client is open and connected and its writer takes it; a writer that gives up disconnects the client |
| Routing.CallbackReachesAll | src/brickd/network.c:371-400 | a response with sequence number zero, a callback, is offered to every client exactly once, and drops the pending requests for its UID if it announces that UID and none otherwise; nothing else changes |
| Routing.DispatchedKeeps | src/brickd/network.c:361-445 | dispatching any response keeps the invariant |
| Routing.RoutesToOldest | src/brickd/network.c:361-445 | a response with a sequence number consumes exactly the oldest request it answers over all clients and zombies, is offered to no other client, and finishes a zombie exactly with its last request |
| Routing.BroadcastsUnmatched | src/brickd/network.c:428-445 | a response that answers no request leaves all of them alone and is offered once to each client |
| Routing.NobodyNothing | src/brickd/network.c:401-445 | without clients and zombies nothing is pending, so the branch that drops the response passes no request over |
| Routing.AnnouncedDropsAll | src/brickd/stack.c:141-167 | after a stack announced its end exactly the requests for other UIDs are pending, in the same order and with the same owners |
| Routing.KeptAreOthers | src/brickd/network.c:133-158 | a request survives the drop if and only if its UID is not among those dropped |
| Lifetimes.DestroyedFrees | src/brickd/client.c:413-446 | a client's requests are freed if and only if no zombie could be created for them; other owners keep theirs |
| Lifetimes.DestroyedExactly | src/brickd/client.c:413-446 | a zombie is created if and only if the client has pending requests and it can be set up, and then it has all of them in the same order |
| Lifetimes.FreeAllFrees | src/brickd/zombie.c:90-105 | an owner's requests are freed oldest first and nobody else's |
| Lifetimes.CleanClientsStay | src/brickd/network.c:291-306 | exactly the disconnected clients leave the array, the others keep their order |
| Lifetimes.CleanZombiesStay | src/brickd/network.c:308-317 | exactly the finished zombies leave the array, the others keep their order |
| Lifetimes.CleanedFrees | src/brickd/network.c:291-318 | cleaning up frees the requests of disconnected clients without a zombie and those of finished zombies, and no others, in that order |
| Lifetimes.ExitEmpties | src/brickd/network.c:222-226 | after shutting down nothing is pending and no client or zombie is left, whether or not zombies can still be created |
| Lifetimes.StepKeeps | src/brickd/network.c:361-445 | every event keeps the invariant |
| Lifetimes.EventEffects | src/brickd/network.c:239-262 | a new client is connected, has written nothing and changes no request; a timeout finishes its zombie and no other |
| Lifetimes.OwnEventEffects | src/brickd/network.c:320-359 | a request that was remembered is the last on its client's list; a forced response is offered to its own client |
| Lifetimes.RunKeeps | src/brickd/network.c:133-445 | in every reachable state every request has a live owner, no owner has more than 32768, and every request ever allocated is pending or freed |
| Lifetimes.FreedExactlyOnce | src/brickd/client.c:332-345 | in every reachable state the number of times a request was freed and the number of times it is pending add up to one |
| Lifetimes.AllFreedAtExit | src/brickd/network.c:222-226 | after any run that ends with a shutdown every request ever allocated was freed exactly once |
| Links.FreedTied | src/brickd/client.c:332-345 | unlinking the two nodes of a request is freeing it: all lists are the queue restricted to their owners again |
| Links.AddedTied | src/brickd/network.c:346-347 | linking the two nodes of a new request is appending it to the queue |
| Links.ZombifiedTied | src/brickd/zombie.c:69-72 | the sentinel splice is the change of owner: the zombie's list is the client's, the client's is empty |
| Links.ReownedCelled | src/brickd/zombie.c:74-85 | after the owner pointers of the list were rewritten, every request in the queue points to its owner and to nothing else |
| Links.OnOneOwnersList | src/brickd/network.c:332-359 | every pending request is on the list of one owner, the one its pointer names; each counter is the length of its list and at most 32768 |
| Walks.HeadIsFirst | src/brickd/network.c:329-333 | the head of an owner's list is that owner's oldest request in the queue |
| Walks.OwnSearch | src/brickd/client.c:466-485 | searching the client's own list finds the same request as searching the whole queue for that client |
| Network.State.constructor | src/brickd/network.c:160-180 | the empty network: the sentinel alone, no clients, no zombies |
| Network.State.CreateClient | src/brickd/network.c:239-262 | a new client with an empty list and a counter of zero, or no change at all if the array cannot grow or the client cannot be set up |
| Network.State.RemoveAndFree | src/brickd/client.c:332-345 | links, counter and owner pointers after freeing are those of the queue without the request |
| Network.State.Trim | src/brickd/network.c:324-335 | the loop on the counter drops exactly what the queue model says, and leaves room |
| Network.State.Expects | src/brickd/network.c:320-359 | links, counters and pointers hold the queue with the new request |
| Network.State.DropPendingRequests | src/brickd/network.c:133-158 | the walk along the links, with the next node read before the node is freed, drops the requests for the UID |
| Network.State.FindOwn | src/brickd/client.c:466-485 | the walk along the client's list finds the oldest match |
| Network.State.DispatchToClient | src/brickd/client.c:448-515 | all paths of dispatching to a client, on the links |
| Network.State.DispatchToZombie | src/brickd/zombie.c:107-125 | a zombie drops the request and is finished exactly when its counter reaches zero |
| Network.State.Broadcast | src/brickd/network.c:396-400 | the loop over the array |
| Network.State.Find | src/brickd/network.c:405-426 | the walk along the list of all requests finds the oldest match, or none |
| Network.State.DispatchResponse | src/brickd/network.c:361-445 | the whole dispatch, on the links, is the dispatch of the queue model: to all clients (Routing.CallbackReachesAll, Routing.BroadcastsUnmatched) or to the owner of one request (Routing.RoutesToOldest) |
| Network.State.HandOver | src/brickd/zombie.c:74-85 | the loop that rewrites the owner pointers ends with the pointers of the queue model |
| Network.State.TakeOver | src/brickd/zombie.c:69-72 | the splice and the two counters |
| Network.State.CreateZombie | src/brickd/network.c:264-288 | a zombie has everything its client had, or nothing changed |
| Network.State.FreeList | src/brickd/zombie.c:90-105 | the loop on the sentinel's link frees the whole list |
| Network.State.DestroyClient | src/brickd/client.c:413-446 | the client's requests have a zombie, or are freed |
| Network.State.DestroyZombie | src/brickd/zombie.c:90-105 | the zombie's requests are freed |
| Network.State.Cleanup | src/brickd/network.c:291-318 | both backward loops over arrays that shrink under them |
| Network.State.Timeout | src/brickd/zombie.c:35-39 | a zombie whose timer fires is marked as finished |
| Network.State.Exit | src/brickd/network.c:222-226 | both arrays are destroyed, zombies that are created on the way included |
| Stack.Table.Add | src/brickd/stack.c:68-97 | afterwards the table maps the UID to the new handle and all others as before; no UID is in it twice; it fails exactly when the UID is new and the array cannot grow |
| Stack.Table.Get | src/brickd/stack.c:99-112 | the handle of the UID, if it is in the table |
| Stack.Table.Announce | src/brickd/stack.c:141-167 | the farewell of every device goes through the network in table order |
| Stack.Table.AnnounceDisconnect | src/brickd/stack.c:141-167 | afterwards no request for a device of the stack is pending and the others are as they were |
| Sha1Transform.ChooseIsCh | src/brickd/sha1.c:30-31 | the rewritten choice formula is Ch of section 4.1.1 of FIPS 180-4 |
| Sha1Transform.MajorityIsMaj | src/brickd/sha1.c:33 | the rewritten majority formula is Maj of section 4.1.1 of FIPS 180-4 |
| Sha1Transform.WindowSlides | src/brickd/sha1.c:26-27 | the circular array of sixteen words holds the last sixteen words of the schedule of section 6.1.2 |
| Sha1Transform.Blk | src/brickd/sha1.c:27 | one step of the in-place schedule yields the next word of the standard's schedule |
| Sha1Transform.R0 | src/brickd/sha1.c:30 | a round with a fresh input word is a round of the standard |
| Sha1Transform.R1 | src/brickd/sha1.c:31 | the same for rounds 16 to 19 |
| Sha1Transform.R2 | src/brickd/sha1.c:32 | the same for rounds 20 to 39 |
| Sha1Transform.R3 | src/brickd/sha1.c:33 | the same for rounds 40 to 59 |
| Sha1Transform.R4 | src/brickd/sha1.c:34 | the same for rounds 60 to 79 |
| Sha1Transform.AllRounds | src/brickd/sha1.c:50-73 | the eighty unrolled rounds, with rotating variable names, are the eighty rounds of section 6.1.2, for every block and state |
| Sha1Transform.Transform | src/brickd/sha1.c:37-86 | the compression function of the standard, on hosts of either byte order |
| Sha1.SHA1.Init | src/brickd/sha1.c:88-95 | ready for an empty message |
| Sha1.SHA1.Update | src/brickd/sha1.c:97-119 | the message so far grows by the data, wherever the block boundaries lie |
| Sha1.PaddingStops | src/brickd/sha1.c:132-134 | the padding loop stops after exactly the zeros the standard asks for, and not before |
| Sha1.SHA1.Final | src/brickd/sha1.c:121-143 | the digest of the whole message with the padding of section 5.1.1; the object is wiped |
| Sha1Spec.LengthFieldIsExact | src/brickd/sha1.c:100-128 | below 2^61 bytes the 64-bit counter is the exact length in bits |
| Sha1.HashPieces | src/brickd/sha1.c:88-143 | for every split of a message into updates, the digest is the one-shot hash |
| Sha1Vector.AbcHash | src/tests/sha1_test.c:30-48 | the padding, the schedule and the eighty rounds, worked through for the message abc, give the digest that FIPS 180 publishes |
| Hmac.HmacSha1 | src/brickd/hmac.c:116-162 | HMAC-SHA1 of section 2 of RFC 2104, for secrets and data of every length |
| Hmac.HmacOnBytes | src/brickd/hmac.c:135-161 | it is the hash of the outer pad and the hash of the inner pad and the text; each byte of a pad is that of the secret, or zero behind it, xor 0x5C or 0x36 |
| Hmac.LongSecret | src/brickd/hmac.c:126-133 | a secret of more than 64 bytes has the key of its hash |
| Hmac.FillPad | src/brickd/hmac.c:135-156 | the pad arrays hold the key, zero-filled to a block, with the constant on every byte |
| WebsocketSpec.RunConcat | src/brickd/websocket.c:254-392 | decoding a concatenation is decoding the first part and then the second |
| WebsocketSpec.HeaderAnnounces | src/brickd/websocket.c:88-117 | the fields the getters read from a header are those it was built from |
| WebsocketSpec.HeaderBytes | src/brickd/websocket.c:254-333 | what every header of six bytes leads to, on its bytes: a close frame ends the connection, a binary frame starts its payload, and a frame without mask, with an extended length or with another opcode is an error, each if and only if |
| WebsocketSpec.FrameDecodes | src/brickd/websocket.c:254-373 | a masked binary frame with payload decodes to its unmasked payload and leaves the decoder at the start of a frame |
| WebsocketSpec.StreamDecodes | src/brickd/websocket.c:254-392 | so does every sequence of such frames |
| WebsocketSpec.HealthyReadIsNeverZero | src/brickd/websocket.c:335-373 | unless a frame without payload is involved, a read never returns zero |
| WebsocketSpec.NoPayloadExactly | src/brickd/websocket.c:355-373 | which bytes behind a frame are no payload, as a condition on the bytes alone: headers of empty frames and at most one header more |
| WebsocketSpec.ZeroExactly | src/brickd/websocket.c:355-373 | in any state of the decoder, a read returns zero if and only if it comes to a close frame with no payload before it, or runs into a frame without payload with no payload among the bytes behind it |
| WebsocketSpec.CodeExactly | src/brickd/websocket.c:335-392 | a read fails if and only if the decoder meets a frame it cannot accept, and otherwise returns the number of payload bytes if there are any |
| WebsocketSpec.ReadClosesExactly | src/brickd/websocket.c:254-392 | a read meets a close frame exactly behind complete binary frames, as a condition on the bytes alone, and without output exactly if those are empty |
| WebsocketSpec.CloseSwallowedExactly | src/brickd/websocket.c:361-373 | a close frame goes unnoticed if and only if there is payload before it in the same read |
| WebsocketSpec.EmptyFrameReadsAsDisconnect | src/brickd/websocket.c:361-373 | an input for which it does, from the state after the handshake: an empty frame and one more byte, in one read or in two |
| Websocket.Connection.Unmask | src/brickd/websocket.c:340-347 | masking is taken off in place, with the mask index carried on from the last read |
| Websocket.Connection.ParseData | src/brickd/websocket.c:335-373 | the payload parser on the caller's buffer, for every amount of data and every state |
| Websocket.Connection.ParseHeader | src/brickd/websocket.c:254-333 | the header parser: partial headers, the checks (WebsocketSpec.HeaderBytes), and the data that moves to the front |
| Websocket.Connection.Parse | src/brickd/websocket.c:376-392 | the mutual recursion terminates and does what the decoder of the specification does, byte for byte in the caller's buffer |
| Websocket.Receive | src/brickd/websocket.c:448-459 | one read returns the code and the bytes of the specification; behind a close frame that goes unnoticed the decoder starts with a new frame |
| Websocket.ReceiveAll | src/brickd/websocket.c:254-392 | for every stream of such frames and every cut into non-empty reads: the returned bytes concatenate to the payloads and no read looks like an error or a disconnect |
| WebClient.HandleRead | src/brickd/client.c:239-277 | the read handler of a client behind a WebSocket: what the decoder returns is handled as data, disconnect, error or nothing |
| WebClient.GotExactly | src/brickd/client.c:239-277 | zero and failure disconnect the client, a read without payload and without close changes nothing, and payload is handled as if it had been read from a plain socket |
| WebClient.StreamIsRequests | src/brickd/client.c:239-330 | for every stream of masked binary frames with payload and every cut into reads, the client handles the requests in the concatenated payloads |
| ClientSpec.CutsDoNotMatter | src/brickd/client.c:239-330 | however the bytes are cut into reads, the same requests are handled with the same effects, up to the first disconnect |
| ClientSpec.DrainedIsShort | src/brickd/client.c:279-330 | what remains buffered is less than a packet, so a read always has room |
| ClientReach.DrainsPackets | src/brickd/client.c:279-330 | bytes that are packets and the start of another one are handled packet by packet, up to the first that disconnects, disconnect probes are skipped, and that start stays in the buffer |
| ClientReach.BadHeaderDisconnects | src/brickd/client.c:279-296 | a header that is not valid disconnects the client, with nothing behind it looked at |
| ClientReach.HandledOnBytes | src/brickd/client.c:49-236 | everything a request does, by its raw bytes and the state of the client: whether it is remembered, which responses are written, whether it goes to the hardware, the new authentication state and whether the client is disconnected |
| ClientReach.HardwareExactly | src/brickd/client.c:168-236 | a request goes to the hardware if and only if it is not for the daemon, whose UID is 1, and the client need not authenticate or has done so |
| ClientReach.RememberedExactly | src/brickd/client.c:178-236 | over every run, a request is remembered if and only if it expects a response, there is memory for it, and it is for the daemon or goes on to the hardware |
| ClientReach.WithoutSecretAllReach | src/brickd/client.c:168-236 | over every run of a client without a secret, each request for a device goes on to the hardware, at once |
| ClientSpec.HandledKeeps | src/brickd/client.c:178-236 | whatever the request, a client that counts as authenticated was given a nonce and later sent a matching digest, with no nonce request since, and so had every request handed to the hardware |
| ClientSpec.OnlyAuthenticatedRequestsReachHardware | src/brickd/client.c:49-236 | over every run of a client with a secret, each request handed to the hardware comes after the client was given a nonce and after a later authenticate request with matching digest, with no nonce request since the nonce was given |
| ClientSpec.NonceAnsweredExactly | src/brickd/client.c:49-97 | a nonce request in order opens the way to authentication in any case, but a nonce is written in response if and only if a response is expected and the request could be remembered |
| ClientSpec.NonceWrittenIfRemembered | src/brickd/client.c:49-221 | over every run, each nonce that was given was asked for by the last request taken before, and it was written if and only if that request was remembered |
| ClientSpec.HardwareAfterResponseExactly | src/brickd/client.c:49-236 | over every run, a request handed to the hardware comes after a nonce that was written, a later matching digest and no nonce request since, if and only if the last nonce request before it was remembered |
| ClientSpec.MuteExchange | src/brickd/client.c:49-236 | so it need not: three requests without response expected reach the hardware with no nonce ever written |
| ClientSpec.UnansweredNonceOpensHardware | src/brickd/client.c:49-236 | the packets of such an exchange |
| Routing.OwnResponseIfRemembered | src/brickd/client.c:448-515 | a response of the daemon itself reaches the writer of its client if and only if the request was remembered, and then the request is pending no longer |
| Client.Connection.constructor | src/brickd/client.c:374-397 | a fresh client; authentication is required exactly if there is a secret |
| Client.Connection.HandleNonceRequest | src/brickd/client.c:49-97 | the nonce handler in every authentication state, and its response, which is written only for a request that was remembered |
| Client.Connection.HandleAuthenticateRequest | src/brickd/client.c:99-166 | the authenticate handler: the digest compared is the HMAC of both nonces under the secret |
| Client.Connection.HandleDaemonRequest | src/brickd/client.c:178-221 | requests to the daemon itself, with their length checks |
| Client.Connection.HandleRequest | src/brickd/client.c:168-237 | what is remembered, handled, handed to the hardware or dropped, as ClientReach.HandledOnBytes says on the bytes |
| Client.Connection.TakeRequest | src/brickd/client.c:279-329 | one pass of the loop takes one request out of the buffer or waits |
| Client.Connection.HandleRead | src/brickd/client.c:239-330 | a read does what feeding the bytes to the specification does, also on a client that is disconnected already; less than a packet remains |
| UsbSpec.TrimsOldest | src/brickd/usb_stack.c:218-230 | a full queue loses its oldest request and no other one |
| UsbSpec.RefusedExactly | src/brickd/usb_stack.c:187-246 | a request is refused if and only if the device is about to leave or no idle transfer takes it and memory runs out; it is submitted at once if and only if an idle transfer takes it |
| UsbSpec.DispatchedTo | src/brickd/usb_stack.c:187-212 | a request that is dispatched goes to each idle transfer in turn until one takes it, and to none behind that; busy transfers keep theirs |
| UsbSpec.ReturnedExactly | src/brickd/usb_transfer.c:59-145 | a transfer that comes back takes the head of the queue if and only if it was completed and the device stays, and the head leaves the queue if and only if it is then submitted; a cancelled transfer or a missing device is the goodbye |
| UsbSpec.LeavingExactly | src/brickd/usb_transfer.c:59-145 | in every run, the device is about to leave if and only if a transfer that came back, reading or writing, said so before |
| UsbSpec.NothingAfterGoodbye | src/brickd/usb_stack.c:148-246 | from then on nothing is submitted |
| UsbSpec.RunKeeps | src/brickd/usb_stack.c:148-246 | in every run the queue has at most 32768 requests and each request dispatched is in exactly one place: submitted, queued, dropped or refused |
| UsbSpec.RunOrdered | src/brickd/usb_stack.c:148-246 | while no submission or transfer fails, a queue that is not empty means that all transfers are busy, and requests are submitted in the order of dispatch |
| UsbSpec.FailedTransferOvertakes | src/brickd/usb_transfer.c:128-131 | the condition is needed: after one failed transfer the next request overtakes everything in the queue |
| UsbSpec.DispatchOrderExactly | src/brickd/usb_stack.c:187-246 | a dispatch keeps the order of requests if and only if none waits or no idle transfer takes the new one |
| UsbSpec.OrderExactly | src/brickd/usb_stack.c:148-246 | a run is in the order of dispatch all along if and only if no request is dispatched while others wait and an idle transfer takes it |
| UsbSpec.OvertakingHappens | src/brickd/usb_stack.c:148-246 | a run in which that happens: eleven requests, one failed transfer, one request more |
| Usb.Stack.Submit | src/brickd/usb_transfer.c:236-297 | a busy transfer is refused; a failed submission leaves the transfer idle |
| Usb.Stack.TrySubmit | src/brickd/usb_stack.c:195-212 | the loop over the transfers goes on after a failed submission |
| Usb.Stack.Trim | src/brickd/usb_stack.c:218-230 | the counter, in 32 bits, is advanced by exactly the number of requests that are then dropped |
| Usb.Stack.Dispatch | src/brickd/usb_stack.c:176-246 | the whole dispatch; it reports failure exactly when the request could not be queued |
| Usb.Stack.WriteCallback | src/brickd/usb_stack.c:148-174 | the head of the queue leaves it exactly if its submission succeeds |
| Usb.Stack.Return | src/brickd/usb_transfer.c:59-145 | what becomes of a write transfer that comes back, for every status |
| Crc16.TablesAreShifts | src/brickd/red_rs485_extension.c:96-153 | each of the 256 entries of the two tables is what eight shifts with polynomial 0xA001 make of the index |
| Crc16.Crc | src/brickd/red_rs485_extension.c:239-252 | for every buffer the two-table loop computes, byte-swapped, the bitwise CRC-16 of section 6.2.2 of the MODBUS over Serial Line guide V1.02 |
| Crc16.ExampleChecksum | src/brickd/red_rs485_extension.c:239-252 | the example of appendix B of that guide: 02 07 has the checksum 0x1241, sent as 41 12 |
| Rs485Spec.FrameIsEchoed | src/brickd/red_rs485_extension.c:411-427 | a frame that was written passes for its own echo, whatever was in the request buffer before |
| Rs485Spec.AnswerPasses | src/brickd/red_rs485_extension.c:475-515 | a frame assembled by the slave that was asked passes the checks |
| Rs485Bytes.SentOnBytes | src/brickd/red_rs485_extension.c:604-667 | the frame written, byte by byte, in front of what the request buffer held; its echo is due, the answer is timed, and a data request counts as written once more |
| Rs485Bytes.GivenUpOnBytes | src/brickd/red_rs485_extension.c:837-881 | a request that is given up has one try less and leaves with its last; its number is used up if and only if it was a poll or an acknowledgement |
| Rs485Bytes.AcknowledgedOnBytes | src/brickd/red_rs485_extension.c:560-590 | an acknowledgement takes the place of the head of the queue, or is queued if there is memory, and is written with an empty receive buffer |
| Rs485Bytes.AnsweredOnBytes | src/brickd/red_rs485_extension.c:475-600 | what follows a frame that is no echo, on its bytes: acknowledged, handed on, the end of the request or its being given up |
| Rs485Bytes.VerifiedOnBytes | src/brickd/red_rs485_extension.c:425-472 | what follows an echo, and where the bytes behind it go |
| Rs485Bytes.LookedOnBytes | src/brickd/red_rs485_extension.c:389-601 | nothing happens before a whole frame is there; if an echo is due the frame has to be that, byte for byte, and the frame behind it is the answer |
| Rs485Bytes.PolledOnBytes | src/brickd/red_rs485_extension.c:732-776 | the next slave in cyclic order has its turn with an empty buffer, and is polled with an empty packet if it has nothing queued |
| Rs485Runs.FitsTried | src/brickd/red_rs485_extension.c:837-844 | giving up on a request pays for the write before it |
| Rs485Runs.LookedKeeps | src/brickd/red_rs485_extension.c:389-601 | whatever was received, a request that is still open has been paid for or less than a frame is left in the buffer |
| Rs485Runs.ReceivedKeeps | src/brickd/red_rs485_extension.c:704-729 | serial data keeps every request within its budget, also when the buffer is full |
| Rs485Runs.TimedOutKeeps | src/brickd/red_rs485_extension.c:779-835 | so does the timer |
| Rs485Runs.RetryBound | src/brickd/red_rs485_extension.c:389-881 | over every interleaving of data, timeouts and requests, no data request is written to the wire more than ten times for a slave |
| Rs485Silence.WritesAndTriesAreTen | src/brickd/red_rs485_extension.c:389-939 | in every run with silent slaves, while a data request is queued the writes so far and the tries left are ten together, or eleven while its turn lasts |
| Rs485Silence.GoneAfterTenWrites | src/brickd/red_rs485_extension.c:389-939 | in every such run a data request that is no longer queued was written exactly ten times |
| Rs485Silence.WrittenOncePerTurn | src/brickd/red_rs485_extension.c:604-881 | after k turns without an answer a request has been written exactly k times, and it is still queued behind the k-th if and only if k is less than ten |
| Rs485Runs.TimedOutRuns | src/brickd/red_rs485_extension.c:779-835 | with durations below a second the timer is left off after a timeout if and only if the next slave has nothing queued and no memory is left for its poll packet |
| Rs485Runs.NeverStalls | src/brickd/red_rs485_extension.c:389-881 | with durations below a second and memory for poll packets, after every event of every run the timer is armed or its expiry is pending |
| Rs485Runs.NeverStallsExactly | src/brickd/red_rs485_extension.c:389-881 | over all runs with memory for poll packets, the timer never rests if and only if both durations are a fraction of a second |
| Rs485Runs.StallsWithout | src/brickd/red_rs485_extension.c:604-881 | the failing half: the first poll, or the first poll that is not answered, leaves the timer off |
| Rs485Runs.StallLasts | src/brickd/red_rs485_extension.c:704-835 | in every run, once the timer is off no slave is polled before serial data comes in |
| Rs485Runs.EverySlaveOnce | src/brickd/red_rs485_extension.c:732-744 | in every run, as many consecutive polls as there are slaves visit each slave exactly once |
| Rs485Runs.SentAsks | src/brickd/red_rs485_extension.c:604-667 | what the master remembers of its request is the slave's address, the function code and the slave's number |
| Rs485Runs.EchoAccepted | src/brickd/red_rs485_extension.c:411-449 | after the echo of its request the master waits for the answer with an empty buffer |
| Rs485Runs.EmptyAnswerEnds | src/brickd/red_rs485_extension.c:517-543 | an empty answer with the right number ends the request: its entry leaves the queue and the number goes on |
| Rs485Runs.DataAnswerHandedOn | src/brickd/red_rs485_extension.c:545-590 | an answer with data is handed on once and unchanged, and an acknowledgement takes the place of the request |
| Rs485Runs.AckEchoEnds | src/brickd/red_rs485_extension.c:425-442 | the echo of the acknowledgement ends the request |
| Rs485Runs.HandedOnExactly | src/brickd/red_rs485_extension.c:475-558 | a frame is handed on if and only if checksum, address, function code and number are right and it is a response |
| Rs485Loss.HeadMayGo | src/brickd/red_rs485_extension.c:837-844 | a slave loses no request with the head of its queue if and only if the head is no data request or was written |
| Rs485Loss.AnsweredLoses | src/brickd/red_rs485_extension.c:475-600 | a frame looked at as an answer loses a request if and only if the head was never written and the frame ends it, whatever the frame |
| Rs485Loss.ReceivedLoses | src/brickd/red_rs485_extension.c:389-601 | serial data loses a request if and only if the head of the queue was never written and what is then in the buffer ends it |
| Rs485Loss.LosesExactly | src/brickd/red_rs485_extension.c:389-939 | over every run with memory for poll packets, each data request is queued or was written, all along, if and only if serial data never ends a request that was not written |
| Rs485Loss.NothingLostWithoutLateBytes | src/brickd/red_rs485_extension.c:389-939 | in every such run in which no serial data comes in during the delay between polls, each data request accepted for a slave is still queued or was written at least once |
| Rs485Loss.LateByteLosesRequest | src/brickd/red_rs485_extension.c:516-543 | a run in which one late byte loses a request: the answer to a poll stays in the buffer and ends the request behind it, too |
| Rs485.Extension.constructor | src/brickd/red_rs485_extension.c:942-1056 | the slaves with empty queues, and the first of them polled; the bound on writes holds |
| Rs485.Extension.PopFromSlaveQueue | src/brickd/red_rs485_extension.c:837-844 | the head has one try less and leaves with its last; over whole runs that is what Rs485Silence counts |
| Rs485.Extension.SeqPopPoll | src/brickd/red_rs485_extension.c:858-869 | the current request is given up |
| Rs485.Extension.SendPacket | src/brickd/red_rs485_extension.c:604-667 | the frame on the wire and in the request buffer is address, code, number, packet and checksum |
| Rs485.Extension.IsEcho | src/brickd/red_rs485_extension.c:412-423 | the comparison with the request never reads past its end, because the length byte is compared first |
| Rs485.Extension.Acknowledge | src/brickd/red_rs485_extension.c:560-590 | the head of the queue becomes an acknowledgement, or one is queued |
| Rs485.Extension.HandleAnswer | src/brickd/red_rs485_extension.c:475-600 | every check and every kind of response, with its effect on queue, number and timer |
| Rs485.Extension.HandleEcho | src/brickd/red_rs485_extension.c:425-472 | what follows a complete echo, also with bytes behind it |
| Rs485.Extension.VerifyBuffer | src/brickd/red_rs485_extension.c:389-601 | the recursion over echo and answer in one buffer |
| Rs485.Extension.SerialDataAvailable | src/brickd/red_rs485_extension.c:704-729 | new bytes go behind the old ones, up to the size of the buffer, and a failed read changes nothing; the bound on writes is kept |
| Rs485.Extension.PollSlave | src/brickd/red_rs485_extension.c:732-776 | the next slave in turn is sent its head of queue or a poll packet |
| Rs485.Extension.MasterTimeout | src/brickd/red_rs485_extension.c:779-835 | early timeouts are armed again; otherwise the next slave is polled or the request given up; the bound on writes is kept |
| Rs485Runs.DispatchedTo | src/brickd/red_rs485_extension.c:884-939 | with memory, a request for UID 0 or without recipient is queued for every slave, any other for the first slave with the recipient's address and no other |
| Rs485.Extension.DispatchToAll | src/brickd/red_rs485_extension.c:890-911 | the loop over all slaves stops when memory runs out, and reports exactly that |
| Rs485.Extension.DispatchToOne | src/brickd/red_rs485_extension.c:912-936 | the search for the recipient's slave |
| Rs485.Extension.Dispatch | src/brickd/red_rs485_extension.c:884-939 | the whole dispatch; the bound on writes is kept |

## Left out

- src/brickd/mesh.c and src/brickd/mesh_stack.c: socket and timer plumbing, and length checks that are not there yet.
- WebSocket handshake: the lines of the handshake, the send queue before it, and sending frames; the decoder starts
  where the handshake is done.
- src/brickd/base64.c: one short loop on a digest of fixed length.
- src/brickd/hardware.c: the hardware is a sink for requests.
- Opening, scanning, reopening and destroying USB devices, cancelling transfers, read transfers (they only appear as
  the event that the device is leaving) and the stall timer.
- Threads, mutexes and event descriptors of the SPI stack: pushes are steps between passes of its loop.
- Opening connections, the writer behind a client (its own queue and what it drops) and log messages.
- GPIO, serial port setup, EEPROM and configuration files, services and platform code.
- Randomness of nonces and cryptographic strength: only functional equality with the standards is shown.
- RedStack.DiscoverSlave: does not model the recipients that are taken from the answer, because the table they go to is
  modelled and proved on its own (Stack.Table.Add).
- RedStack.SpiStack.PollNext: does not model the stack position that is written into enumerate responses, a change of two
  fields of a packet that is handed on.
- RedStack.SpiStack.HandleReset: does not model the farewells and the emptied recipient table, because
  Stack.Table.AnnounceDisconnect covers them, nor the wait until the reset button is released.
- Usb.Stack.Return: does not model a transfer that was marked as cancelled, which happens only while its device is being
  closed, and the stall timer, which reopens the device.
- Rs485.Extension.constructor: does not model the setup steps that can fail before it (serial port, GPIO, event sources).
- Rs485.Extension.HandleAnswer: does not model the recipient learned from a response (Stack.Table.Add again) and the count
  of checksum errors, which is only written to a file.
- Rs485Runs.RetryBound: is an upper bound, because an answer ends a request early; Rs485Silence.GoneAfterTenWrites gives
  the exact number for slaves that do not answer, Rs485Loss.LosesExactly says when a request is written at least once.
- SpiFrame.SingleByteCorruption: does not cover the length byte, which the checksum does not protect; see
  SpiFrame.LengthByteUnprotected.
