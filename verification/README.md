# Solana gateway: a verified model

The gateway takes Solana shreds from three sources: the OFR relay over UDP, packets captured from the
network (Turbine), and a Firedancer shared-memory ring. It deduplicates them through one cache and forwards
each towards the other side. This project models the state machines under that traffic and proves what they
keep over whole runs. Every concurrent piece is a step function on values with a `Run` over any list of
events, so each theorem speaks about every interleaving; the objects of the source are classes whose methods
are proved equal to those steps.

| file | what it models |
|---|---|
| `Ring.dfy` | the ring consumer, and producer and consumer interleaved |
| `Firedancer.dfy` | the sniffer that drains the ring, while the producer publishes, the cache is used and rotated by others, and the channel is drained |
| `Shreds.dfy` | the two shred parsers, the byte layout and the 64-bit key |
| `AlterKeyCache.dfy` | the two-generation set and its refinement of an epoch-stamped map |
| `Forwarding.dfy` | what every forwarder does with a parsed shred |
| `Pipeline.dfy` | three forwarders sharing the cache: receive, claim, send and rotate as separate steps |
| `Watchdog.dfy`, `Gateway.dfy` | registration and the no-traffic counter, one atomic operation per step; the gateway object |
| `Registry.dfy`, `NetListen.dfy`, `RegistryRace.dfy` | the sniffer registry as events, the listener object, and one dynamic port with its map operations interleaved |
| `Ports.dfy` | the cyclic port allocator |
| `Sniffer.dfy` | the capture loop and its stop rule |
| `Stats.dfy`, `Counters.dfy`, `Decimals.dfy` | the recorders behind the statistics, and decimal text |
| `Bits.dfy`, `Modular.dfy`, `Wrappers.dfy` | bitwise or, residues, Option and Result |

`dafny verify dfyconfig.toml` checks the whole project.

## What the code does that a reader might not expect

Each of these is a lemma; where a promised property fails, the lemma beside it gives the exact condition.

- The full parser indexes byte 64 after checking only for 64 bytes: it panics exactly at length 64
  (`Shreds.PanicsExactlyAtSignatureLength`). The partial parser cannot.
- The key keeps 36 slot bits and 20 index bits. The Firedancer path bounds neither, and a wide index spills
  into the slot field (`Shreds.WideIndexCollides`); `Shreds.KeyCollisions` says exactly which shreds collide.
- Claiming a key and sending the shred are separate steps. Claims of one key are always two rotations apart,
  but sends are not: each rotation between claim and send of the first costs one of the two
  (`Pipeline.SendGap`), so they are two apart in every run exactly when there is none (`Pipeline.SendsApart`).
  What came from OFR is sent back to OFR within two rotations in some run exactly when a forwarder towards OFR
  can take two rotations from claim to send (`Pipeline.NoReflection`); `Pipeline.SlowSender` gives the runs.
- The watchdog adds and then loads; a packet in between resets the counter to zero, zero is a multiple of the
  limit, and the gateway panics although traffic just arrived (`Watchdog.SpuriousPanic`). Every panic is that or
  a reached limit (`Watchdog.PanicCauses`), and with both operations in one step only the latter
  (`Watchdog.AtomicWatchdog`). The limit means what it says exactly in 1..2^31 (`Watchdog.ThresholdIsLimit`).
- The ring consumer reads batches in place and reads their length again on each poll, so a drained batch that
  is overwritten comes back to life under its old number exactly when the new one is longer than what was consumed,
  and then the very next poll breaks the order of delivery (`Ring.UsedUpBatchRevives`); this is why the
  producer assumption `Ring.Allowed` mentions it. An entry with a bad size, like a lap, stalls the
  consumer for good (`Ring.StallIsForever`). An empty or out-of-bounds batch is an error instead, and the
  sniffer leaves its loop; nothing could have been delivered any more (`Ring.FailureIsFinal`).
- The cleanup of a dynamic port deletes from two maps in two steps. A registration in between loses its listing
  to the second deletion, and unless its own cleanup has looked the port up by then, the port is on record but
  not listened on, for good (`RegistryRace.AgreementUnlessOrphaned`, `RegistryRace.OrphanedIsForever`). If
  it has, both cleanups together empty both maps (`RegistryRace.OverlappingCleanups`).
- An outgoing sniffer that stops by itself stays registered as open, so the reopening after a silence skips it
  (`Registry.StoppedStaysOpen`; `NetListen.SilenceReopens` says exactly which sniffers run afterwards).
- The allocator uses port 0 for "not bound" and misses a free port exactly when port 0 is the first free one
  (`Ports.PortZero`, with a failing call in `Ports.PortZeroLost`).
- The counter of invalid packets is only wired to outgoing sniffers, which are strict, and strict sniffers
  never reach the line that bumps it (`Sniffers.Sniffer.Sniff`).

## Model

| member | source | states |
|---|---|---|
| Ring.Monitor.constructor | bxgateway/internal/firedancer/lib/fd_shred_monitor.c:285-297 | the start-up scan leaves a running cursor with no batch at the largest sequence number that the slots held when it came to them |
| Ring.Monitor.LoadBatch | bxgateway/internal/firedancer/lib/fd_shred_monitor.c:217-244 | a batch loads exactly when its 41792 bytes lie in the workspace and its count is not zero |
| Ring.Monitor.Next | bxgateway/internal/firedancer/lib/fd_shred_monitor.c:301-350 | new cursor and result are those of the specification the ring theorems are about, nested cursor and recursive step included |
| Ring.Monitor.Stop | bxgateway/internal/firedancer/lib/fd_shred_monitor.c:353-357 | only the running flag falls |
| Ring.RingDelivery | bxgateway/internal/firedancer/lib/fd_shred_monitor.c:301-350 | in every interleaving of publications and polls, deliveries start at shred 0 of the batch after the start, follow each other without gap, repeat or reorder, and carry what was published |
| Ring.DeliveredPositions | bxgateway/internal/firedancer/lib/fd_shred_monitor.c:306-325 | in such a log a shred is followed by the next of its batch exactly while that is below the count and below 34, and else by the first of the next batch |
| Ring.OrderIsUnique | bxgateway/internal/firedancer/lib/fd_shred_monitor.c:306-325 | that order leaves no choice: two such logs agree wherever both are defined |
| Ring.PublishKeepsMirrors | bxgateway/internal/firedancer/lib/fd_shred_monitor.c:327-334 | an allowed publication keeps every live number in its slot with its batch in memory, and nothing newer anywhere else |
| Ring.PublishedWhere | bxgateway/internal/firedancer/lib/fd_shred_monitor.c:327-334 | the producer writes number n to slot n mod depth, and touches no other slot |
| Ring.PollKeepsInv | bxgateway/internal/firedancer/lib/fd_shred_monitor.c:301-350 | a poll in any state keeps the invariant that ties cursor, log, ring and history together |
| Ring.PollOutcome | bxgateway/internal/firedancer/lib/fd_shred_monitor.c:306-349 | a poll delivers iff the batch has an unread shred among its first 34, or the next number is not overwritten, sized 1 to 41792, in the workspace and not empty; it fails iff only the last two are missing |
| Ring.CatchUp | bxgateway/internal/firedancer/lib/fd_shred_monitor.c:301-350 | progress: if nothing ahead is lapped or bad, as many polls as unread shreds, at most 34 a batch, deliver them all and the consumer is level with the producer |
| Ring.StuckIsForever | bxgateway/internal/firedancer/lib/fd_shred_monitor.c:327-349 | once the drained consumer's next number is overwritten, badly sized or cannot be loaded, no later publication or poll moves the cursor or the log |
| Ring.StallIsForever | bxgateway/internal/firedancer/lib/fd_shred_monitor.c:327-349 | after a lap or a bad size, besides, every later poll of a running consumer returns 0 |
| Ring.FailureIsFinal | bxgateway/internal/firedancer/lib/fd_shred_monitor.c:334-338 | after a failed poll, later ones fail as long as the bad entry is in the ring and return 0 from then on; none delivers anything |
| Ring.StartPoint | bxgateway/internal/firedancer/lib/fd_shred_monitor.c:285-293 | on a ring at rest, the scan finds the newest number iff no slot holds a larger one and an unpublished-to ring holds the number before |
| Ring.ScanAttaches | bxgateway/internal/firedancer/lib/fd_shred_monitor.c:285-293 | on a ring at rest, exactly when a consumer started by the scan is attached at the newest publication, the state the delivery theorem starts from |
| Ring.ScanBesideProducer | bxgateway/internal/firedancer/lib/fd_shred_monitor.c:285-293 | in every interleaving of slot reads and publications, the scan finds a number between the newest at its start and the newest at its end, and attaches the consumer there |
| Ring.UsedUpBatchRevives | bxgateway/internal/firedancer/lib/fd_shred_monitor.c:306-324 | in every reachable state: after a publication over the drained current batch, the next poll keeps the delivery order iff the new batch is no longer than what was consumed |
| FiredancerSniffers.FiredancerSniffer.Handle | bxgateway/internal/firedancer/firedancer-sniffer.go:80-131 | one ring shred: totals grow by one in sum and roll over once a second; cache and channel change as the offer of its key, and an unknown variant changes neither |
| FiredancerSniffers.FiredancerSniffer.Recv | bxgateway/internal/firedancer/firedancer-sniffer.go:70-141 | while ring, cache and channel are changed by others between turns, the loop pulls and forwards what its turns find, stops at an error or when the monitor is stopped, and its totals sum to the number pulled |
| FiredancerSniffers.LoopIsRun | bxgateway/internal/firedancer/firedancer-sniffer.go:70-140 | in every interleaving with producer, other users of the cache and reader of the channel, that loop is the sniffer of the step system: same cursor, pulled and forwarded shreds |
| FiredancerSniffers.SniffedInOrder | bxgateway/internal/firedancer/firedancer-sniffer.go:70-140 | in every such interleaving, what an attached sniffer pulls is in order, without gap or repeat, as published, and what it forwards is an in-order selection of that |
| FiredancerSniffers.ForwardedExactly | bxgateway/internal/firedancer/firedancer-sniffer.go:103-131 | over every run, a pulled shred is forwarded iff at that moment its variant is known, its key is not in the shared cache and the channel has room |
| FiredancerSniffers.StepCache | bxgateway/internal/firedancer/firedancer-sniffer.go:103-123 | the sniffer claims the key of every pulled shred of a known variant, and changes the cache in no other way |
| FiredancerSniffers.LeavingLosesNothing | bxgateway/internal/firedancer/firedancer-sniffer.go:136-138 | ring, cursor and log develop as if the sniffer had not left its loop at an error, under the producer assumption |
| Shreds.VariantByte | pkg/solana/shred.go:74-122 | the known variants are the bytes 0x40..0xBF; each is code or data, never both; kind and proof size give the byte back except for a legacy byte with a low nibble |
| Shreds.VariantFlags | pkg/solana/shred.go:74-122 | bytes below 0x80 are code, the others data, 5 and 10 in the high nibble legacy; chained and resigned are bits 5 and 4 of a Merkle code byte and bits 4 and 5 of a data byte, the low nibble its proof size |
| Shreds.PanicsExactlyAtSignatureLength | pkg/solana/shred.go:148-153 | the full parser indexes out of range iff the input has 64 bytes |
| Shreds.AcceptedShreds | pkg/solana/shred.go:148-160 | the full parser accepts exactly the known variant bytes with legal sizes, 1228 or 1203 to 1228, and which error the others get |
| Shreds.ParsedFields | pkg/solana/shred.go:162-200 | every field of a parsed shred as the little-endian number of its bytes |
| Shreds.AcceptedDatagrams | pkg/solana/shred.go:203-244 | for every buffer and length, the result of the partial parser: its errors in order, or the fields read from their bytes |
| Shreds.FilteredSizes | pkg/solana/shred.go:271-281 | the sniffers' filter accepts 1203 to 1228 and tells too big from too small |
| Shreds.ParserAgreement | pkg/solana/shred.go:148-244 | for every buffer and length, the partial parser succeeds iff the full one does on the prefix, index <= 32768 and a data shred's parent offset <= slot; then both read the same fields |
| Shreds.DeadBranches | pkg/solana/shred.go:226-235 | the second parent check and the unknown-variant size error never fire, and everything accepted passes the sniffer's size filter |
| Shreds.LayoutRoundTrip | pkg/solana/shred.go:148-201 | parsing a written header recovers every field, the variant up to a legacy low nibble, and leaves the rest alone |
| Shreds.WriteBack | pkg/solana/shred.go:148-201 | the other way round: writing back the parsed header reproduces the buffer iff the variant is not a legacy byte with a low nibble |
| Shreds.KeyForm | pkg/solana/shred.go:246-252 | the shifted-and-or'ed key is three fields side by side, for any slot and 32-bit index |
| Bits.OrBits | pkg/solana/shred.go:251 | the bitwise or of the key, bit by bit |
| Shreds.KeyCollisions | pkg/solana/shred.go:246-252 | exactly which shreds share a key, for any index |
| Shreds.KeyPacking | pkg/solana/shred.go:246-252 | with indices below 2^20, keys are equal iff slots agree mod 2^36 and index and variant are equal |
| Shreds.KeyDecode | pkg/solana/shred.go:246-252 | shifts and masks take the key apart again, giving back slot mod 2^36 and index iff the index is below 2^20; it fits in 64 bits |
| Shreds.WideIndexCollides | pkg/solana/shred.go:246-252 | the index bound is needed: index 2^20 of slot 0 has the key of index 0 of slot 1 |
| Forwarding.SameKey64 | pkg/solana/shred.go:246-252 | two parsed shreds have one key iff slots agree mod 2^36 and index and variant are equal |
| AlterKeyCache.AlterKey.Set | pkg/cache/alterkey.go:34-49 | true iff the key is in neither map, and then it is in the current one; nothing else changes |
| AlterKeyCache.AlterKey.Cleanup | pkg/cache/alterkey.go:51-58 | the current generation becomes the altered one, which is forgotten |
| AlterKeyCache.CacheRefinement | pkg/cache/alterkey.go:34-59 | over every run the two maps refine a map from key to last accepting rotation, and are disjoint |
| AlterKeyCache.StampMeaning | pkg/cache/alterkey.go:34-59 | the stamp of a key is the rotation of its last accepted Set; rejected ones never extend it |
| AlterKeyCache.SetHistory | pkg/cache/alterkey.go:34-59 | Set returns true iff every earlier accepted Set of the key is at least two rotations back |
| Pipeline.EveryRun | bxgateway/internal/netlisten/netlisten.go:143-199 | every interleaving keeps the cache in step with the accepts, accepts of a key spaced, and every send backed by an accept of its own forwarder |
| Pipeline.ClaimOutcome | pkg/cache/alterkey.go:34-49 | a claim is refused iff the key was accepted in this rotation or the one before, by any forwarder |
| Pipeline.AtMostOnce | bxgateway/internal/gateway/gateway.go:301-314 | over every interleaving, two forwarded shreds with one key were accepted at least two rotations apart |
| Pipeline.NoReflection | bxgateway/internal/netlisten/netlisten.go:170-199 | for every delay d from claim to send: in all runs what was accepted from OFR goes back to OFR only two rotations later, iff d < 2; accepting and sending back are two apart in either order, iff d = 0 |
| Pipeline.SuppressedOnlyByItself | pkg/solana/shred.go:246-252 | after every run a claim, with any index, is refused iff a shred with its own key fields was accepted in this rotation or the one before |
| Pipeline.SuppressedByDatagram | pkg/solana/shred.go:246-252 | between datagrams, the same key fields mean the same index, variant and slot mod 2^36 |
| Pipeline.DatagramIndexBound | pkg/solana/shred.go:216-221 | every shred that came as a datagram has an index below 2^20, in every run |
| Pipeline.SendGap | bxgateway/internal/gateway/gateway.go:301-314 | for every delay d and gap g: in all runs the send accepted later is at least g rotations after one that took d rotations from claim to send, iff g + d <= 2 |
| Pipeline.SendsApart | bxgateway/internal/gateway/gateway.go:301-314 | two sends of one key are two rotations apart in all runs iff the one accepted first was sent without delay |
| Pipeline.SlowSender | bxgateway/internal/gateway/gateway.go:301-314 | for every shred, pair of forwarders and delay, the run in which the second claims and sends it from two rotations on, before or after the first has sent it |
| Pipeline.UninterruptedForward | bxgateway/internal/firedancer/firedancer-sniffer.go:103-131 | a forwarder that is not interrupted claims, sends and leaves the cache as the offer the three handlers are proved to make, and what is recorded of it |
| Pipeline.DatagramIdentity | bxgateway/internal/gateway/gateway.go:293-301 | a datagram stands for the shred the parser reads, under the key that the handlers of OFR and Turbine claim |
| Pipeline.RingIdentity | bxgateway/internal/firedancer/firedancer-sniffer.go:103-120 | the same for a shred from the ring and the sniffer's key |
| Watchdog.AddressSafety | bxgateway/internal/gateway/gateway.go:172-198 | in every interleaving a non-zero OFR address is that of the latest successful registration with none begun since, only packets from it are accepted, and the counter is the re-registrations since the last accepted packet |
| Watchdog.LoopSteps | bxgateway/internal/gateway/gateway.go:393-409 | what tick, answer, store and count do: in particular only an invalid configuration and a missing authorization end the program, other refusals are waited out |
| Watchdog.ReceiverSteps | bxgateway/internal/gateway/gateway.go:271-290 | a packet is looked at iff there is an address, accepted iff its IP is the registered one at the comparison, and then resets the counter |
| Watchdog.PanicCauses | bxgateway/internal/gateway/gateway.go:409-417 | the check panics iff the limit is 0 in 32 bits, the threshold is reached, or a packet was accepted between count and check |
| Watchdog.SpuriousPanic | bxgateway/internal/gateway/gateway.go:285-290 | for every limit, a run that panics for lack of traffic after one re-registration and an accepted packet |
| Watchdog.AtomicWatchdog | bxgateway/internal/gateway/gateway.go:385-427 | with count and check in one step, the loop has panicked iff the threshold was reached, and a live gateway is below it |
| Watchdog.ThresholdIsLimit | bxgateway/internal/gateway/gateway.go:413 | the threshold is the configured limit iff that lies in 1..2^31 |
| Watchdog.CheckFires | bxgateway/internal/gateway/gateway.go:413 | with int32 arithmetic and Go's remainder, the check fires below the threshold only at 0 and at the threshold itself |
| Gateways.Gateway.Register | bxgateway/internal/gateway/gateway.go:172-198 | the address is cleared, and is set to the answer iff there is one |
| Gateways.Gateway.Start | bxgateway/internal/gateway/gateway.go:200-220 | at most three attempts, a further one exactly after an error that is neither invalid configuration nor missing authorization; no error iff the last attempt succeeded, and then its address is the registered one |
| Gateways.Gateway.ReRegister | bxgateway/internal/gateway/gateway.go:393-424 | one firing of the ticker is the watchdog's five loop steps in a row: a new address and one more on the counter, or no address and, after the two fatal errors only, a panic |
| Gateways.Gateway.ProcessShred | bxgateway/internal/gateway/gateway.go:271-316 | one packet is the watchdog's three receiver steps; cache and channel change only for a parsed shred from the registered IP, and then as the offer of its key; only lengths that the payload has are queued |
| Gateways.Gateway.BroadcastToNode | bxgateway/internal/gateway/gateway.go:335-347 | the oldest queued shred is written, unpadded, to the node unless there is none and to every extra address, in order; its slice is always in range |
| Gateways.Gateway.BroadcastToOFR | bxgateway/internal/gateway/gateway.go:355-377 | nothing before registration; then OFR first and the extra addresses unless they are for OFR traffic only |
| Registry.KeysInjective | bxgateway/internal/netlisten/netlisten.go:60-66 | the text of a port and the filter expression naming its handle both determine direction and port |
| Registry.KeyTexts | pkg/packet/handle_d.go:43-53 | the two texts, letter by letter |
| Registry.RegistryAgreement | bxgateway/internal/netlisten/netlisten.go:103-294 | in every reachable state a handle name is listened on iff the port map holds an open handle for the same port data; only outgoing ports are closed; dynamic ones are never outgoing and have a running sniffer |
| Registry.RegisteredPort | bxgateway/internal/netlisten/netlisten.go:269-294 | a successful registration puts the port into both maps with a running sniffer, a failed one changes nothing |
| Registry.ExitForgets | bxgateway/internal/netlisten/netlisten.go:110-124 | when the sniffer of a dynamic port returns, the port is in neither map |
| Registry.PacketOutcome | bxgateway/internal/netlisten/netlisten.go:145-170 | a packet of an unknown handle changes nothing; one that does not parse closes an outgoing port and changes nothing else; one that parses claims its key and closes nothing |
| Registry.StopOutcome | bxgateway/internal/netlisten/netlisten.go:125 | a static sniffer that stops by itself leaves both maps as they are |
| Registry.OtherPortsUntouched | bxgateway/internal/netlisten/netlisten.go:103-294 | no event touches entry, listing or sniffer of a port it is not about |
| Registry.ClosedPortSilence | bxgateway/internal/netlisten/netlisten.go:143-161 | a packet that does not parse closes its outgoing port, and nothing with that handle name is forwarded before the port is registered again |
| Registry.SilentWhileUnregistered | bxgateway/internal/netlisten/netlisten.go:145-149 | a name that is not listened on stays silent, and unlisted, as long as its port is not registered |
| Registry.StoppedStaysOpen | bxgateway/internal/netlisten/netlisten.go:200-205 | an outgoing sniffer that stopped by itself stays registered as open, and stopped, through every later silence, until a packet of it that does not parse |
| Registry.OutputIsSelection | bxgateway/internal/netlisten/netlisten.go:143-199 | what is forwarded is an in-order selection of what came in, each with the fields its own payload parses to |
| Registry.ForwardedExactly | bxgateway/internal/netlisten/netlisten.go:145-199 | over every run a packet is forwarded iff at that moment its handle is registered, it parses, its key is new to the cache and the channel has room |
| Registry.ForwardedLength | bxgateway/internal/gateway/gateway.go:365-372 | the length of every forwarded packet is one its payload has, so slicing it for the write to OFR is in range |
| NetListen.NetworkListener.RegisterNewSniffer | bxgateway/internal/netlisten/netlisten.go:269-294 | both maps gain exactly this port, or nothing changes on error |
| NetListen.NetworkListener.RegisterNewSniffers | bxgateway/internal/netlisten/netlisten.go:253-267 | the ports up to the first that fails are registered, in order, and are in both maps afterwards |
| NetListen.NetworkListener.CreateDynamicSniffers | bxgateway/internal/netlisten/netlisten.go:296-343 | the two passes equal one discovery event per port; a sniffer is made iff the port was unknown and its handle could be created, and then the port is in both maps |
| NetListen.CollectThenOpen | bxgateway/internal/netlisten/netlisten.go:307-340 | collecting unknown ports before registering any is the same as looking each up just before registering it |
| NetListen.NetworkListener.Cleanup | bxgateway/internal/netlisten/netlisten.go:357-369 | a dynamic sniffer that returned takes its port out of both maps |
| NetListen.NetworkListener.Recv | bxgateway/internal/netlisten/netlisten.go:145-199 | one captured packet does to maps, cache and channel what the packet event does |
| NetListen.NetworkListener.ReopenClosed | bxgateway/internal/netlisten/netlisten.go:200-220 | a silence is one reopen event for each port of the map, in some order, once |
| NetListen.SilenceReopens | bxgateway/internal/netlisten/netlisten.go:200-220 | afterwards a port is open iff it was or its handle could be created, its sniffer runs iff it did or the port was closed and reopened, and the maps still agree |
| RegistryRace.AgreementUnlessOrphaned | bxgateway/internal/netlisten/netlisten.go:345-377 | with the map operations of monitor and all cleanups interleaved, the maps agree at rest iff no cleanup deleted the listing of a later registration before that one's own cleanup looked it up |
| RegistryRace.AgreementUnlessOvertaken | bxgateway/internal/netlisten/netlisten.go:345-377 | so they agree if no registration fell between the two deletions of a cleanup |
| RegistryRace.OrphanedIsForever | bxgateway/internal/netlisten/netlisten.go:315-318 | otherwise the port is on record and not listened on ever after, and discovery sees nothing to do |
| RegistryRace.CleanupOvertaken | bxgateway/internal/netlisten/netlisten.go:357-361 | a run that orphans a registration |
| RegistryRace.OverlappingCleanups | bxgateway/internal/netlisten/netlisten.go:357-361 | a run in which a registration falls between two deletions and the port recovers, because its own cleanup overlaps the first |
| Ports.FDSet.NextFD | pkg/udp/udp.go:35-90 | terminates within one circle; binds the ports tried in cyclic order, returns the first free one, and restores the position when it fails |
| Ports.CallOutcome | pkg/udp/udp.go:49-90 | no port is tried twice; what is returned is free and everything tried before it is not; with min >= 1 a call fails iff nothing in the range is free |
| Ports.PortZero | pkg/udp/udp.go:64-85 | the first free port is returned iff it is not port 0 |
| Ports.PortZeroLost | pkg/udp/udp.go:64-85 | with ports 0 and 1 both free, a call that starts at 0 fails |
| Ports.RoundRobin | pkg/udp/udp.go:49-86 | between two returns of one port every other port of the range was tried, whatever was free when |
| Ports.FixedEnvironment | pkg/udp/udp.go:49-86 | while the same ports stay free, none is returned again before every free one was |
| Ports.Circle | pkg/udp/udp.go:71-75 | the wrapping step comes back to a port only after a full circle through the range |
| Sniffers.Sniffer.DecodePacket | pkg/packet/sniffer.go:167-201 | the packet with a bounded, zero-extended copy of the payload, or an error with the source address if it was reached |
| Sniffers.Sniffer.Sniff | pkg/packet/sniffer.go:96-162 | the loop's counters, output and way of stopping are those of the run, at the first event that ends it; strict sniffers never bump the invalid counter |
| Sniffers.RatioOverIntegers | pkg/packet/sniffer.go:130 | the ratio test, over the reals, is 100 * invalid < valid |
| Sniffers.ToleranceInvariant | pkg/packet/sniffer.go:108-146 | at every loop head of every run of a strict sniffer, invalid = 0 or 100 * invalid < valid |
| Sniffers.StopsExactlyAtThreshold | pkg/packet/sniffer.go:126-146 | a strict sniffer runs iff nothing ended it and every invalid packet so far was within the threshold when it came |
| Sniffers.TolerantNeverStops | pkg/packet/sniffer.go:139-145 | other sniffers are ended only by cancellation or end of file |
| Sniffers.StopReason | pkg/packet/sniffer.go:108-161 | a running sniffer ends at cancellation or end of file, gives up at an invalid packet iff it is strict and the ratio is not below the threshold, and puts nothing out then |
| Sniffers.EveryValidFrame | pkg/packet/sniffer.go:148-161 | nothing is lost: a running sniffer has put out exactly one packet, in order, for every valid frame that found room, and its counts are those of the events |
| Sniffers.DecodedFrames | pkg/packet/sniffer.go:167-201 | which frames are valid, and the packet made of them |
| Sniffers.NothingTruncated | pkg/packet/sniffer.go:184-198 | every packet a validating sniffer emits is a whole captured payload of a legal size, zero-extended |
| Stats.Conservation | pkg/ofr/stats.go:521-556 | per source and over every run, recorded = dropped + queued + counted + flushed |
| Stats.DroppedOnlyWhenFull | pkg/ofr/stats.go:521-526 | every record is accounted for, and the dropped ones are exactly those that met ten thousand waiting |
| Stats.DrainedInOrder | pkg/ofr/stats.go:528-556 | draining counts the oldest record for its source and nothing else; a flush takes all counts |
| Stats.Bounds | pkg/ofr/stats.go:521-526 | the channel never overfills and every source in the map has a positive count |
| Stats.ShredsBySrcRecorder.Record | pkg/ofr/stats.go:521-526 | queued if there is room, dropped otherwise |
| Stats.ShredsBySrcRecorder.RunOnce | pkg/ofr/stats.go:528-542 | the oldest queued record is counted, in place for a known source |
| Stats.ShredsBySrcRecorder.FlushAll | pkg/ofr/stats.go:544-556 | the map is emptied and its records, all of them and no others, are handed over largest count first |
| Counters.KeyedCounter.Bump | pkg/ofr/stats.go:37-41 | the map stays the counts of the increments since the last flush |
| Counters.KeyedCounter.Flush | pkg/ofr/stats.go:43-49 | returns those counts and starts from an empty map |
| Counters.CounterConserves | pkg/ofr/stats.go:37-49 | for every key and run, increments = current count + everything flushes returned |
| Counters.BuildKeyInjective | pkg/ofr/stats.go:504-509 | decimal slot and type byte make a key that determines both, for any byte, digits included |
| Counters.FirstShredRecorder.See | pkg/ofr/stats.go:483-502 | a shred is reported iff its key is not remembered, and then it is |
| Counters.FirstShredRecorder.Clean | pkg/ofr/stats.go:511-519 | exactly the keys older than a minute are forgotten |
| Counters.FirstReports | pkg/ofr/stats.go:483-519 | two reports for one slot and type are more than a minute apart; a shred goes unreported iff one of its own slot and type is remembered |

## Left out

Assumptions the theorems rest on:

- Ring.RingDelivery: the producer may write over the memory of a batch, or any part of it, only after its ring slot is gone, and over the consumer's current batch only when it is used up, in the same place and by one no longer than what was consumed (`Ring.Allowed`); the source copies nothing, so without this the shreds read need not be the ones published.
- Ring.Monitor.Next: one call is one step; a producer that writes a fragment or batch while the call reads it is not modelled.
- Ring.Monitor.LoadBatch: the source stores the cap of 34 shreds into memory that is mapped read-only; the model applies the cap wherever the count is read.
- Ring.PublishKeepsMirrors: sequence numbers stay below 2^64 - 1, so the wrap of the 64-bit counter is out.
- Registry.RegistryAgreement: register, close, reopen, discovery and cleanup are single steps there; `RegistryRace` takes them apart for one dynamic port. A static registration of a port with a dynamic entry, which the source would let overwrite the entry, does nothing in the model: static ports are registered only at construction, before any dynamic one (`netlisten.go:231-251`).
- Counters.FirstReports: the clock does not run backwards.
- NetListen.NetworkListener.CreateDynamicSniffers: the list of ports is taken as given, without repeats and without the excluded ones; how it is gathered is not modelled.
- Sniffers.RatioOverIntegers: the ratio is over the reals; rounding of float64 is not modelled.

- Pipeline.SlowSender: all three forwarders run side by side, although `gateway.go:237-242` starts either the Firedancer sniffer or the network listener; the theorems cover each pair that does run, and `Pipeline.NoReflection` and `Pipeline.SendGap` use only OFR and the listener for their counterexamples.

Not modelled:

- The workspace file, its magic numbers, the search for the ring in it (`find_mcache`), and uninitialised or doubly initialised monitors.
- Where a shred lies inside a batch (offset and stride) and its payload bytes; a batch is a sequence of 34 headers.
- Sockets, capture handles, filters, gRPC, configuration, logging and the contents of error messages; their results are parameters of the steps.
- Time: tickers, retries and the one-second totals are free events.
- Concurrent reads of the OFR address while it is written; each read and write is one step.
- IP addresses are 32-bit numbers; IPv6 is not distinguished.
- Context cancellation, channel closing and WaitGroup shutdown of the listener and of the gateway loops.
- Integer overflow of the statistics counters and of the sniffer's 64-bit counts.
- The order in which the sort of a flush leaves equal counts; it is modelled by an insertion sort, and its contract is the descending order and the same records.
- The lossy channel in front of the first-shred recorder, which behaves as the one of the source recorder.
- Base64 text of the signature, variant names, sampling, percentages and indicators in the printed statistics, histograms and the external log collector.
- Address comparison and conversion helpers, the fixed-range listener, alive messages and the batch pool, which are easy.
