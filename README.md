# IPv6 distance-vector router over SLIP — a Dafny model

This project models the core of a small IPv6 router that talks to its
neighbours over serial lines framed with SLIP (RFC 1055). Three parts are
modelled:

- **router-01** is the full router.
  - Its routing table has 29 slots. Updates keep at most 29 entries, one
    per /64 network. Start-up checks neither capacity nor duplicate networks
    (see Findings).
  - It classifies each packet SLIP delivers.
  - It learns routes from neighbours' advertisements: the advertised metric
    plus one, with the neighbour as gateway.
  - It forwards other packets with the hop limit decremented.
  - Every round it ages out learned routes older than 100 seconds and
    advertises its table on every interface to ff02::1.
  - Each interface has one send slot. A packet offered to a busy slot is
    dropped.
- **slipnet.c** is the link layer.
  - The sender brackets a packet with END bytes and escapes END and ESC.
  - The receiver is a per-interface state machine over a 1024-byte buffer.
  - `router/slipnet.c` and `router-01/slipnet.c` are byte-identical and are
    modelled once. Rows below cite one of them; every cited line holds in
    both.
- **router-02** is a forward-only draft.
  - It sends every packet with a hop limit above 1 back out on its arrival
    tty, behind a one-send-at-a-time flag.

## Modules

| file | module | what it holds |
|---|---|---|
| `bytes.dfy` | `Bytes` | C integer widths, uint32 wrap-around, htons/htonl and their inverses |
| `ipv6.dfy` | `Ipv6` | header fields, `get_network_prefix`, `is_packet_for_router`, the hop-limit rewrite |
| `slip.dfy` | `Slip` | `write_slip_data` as a method against a `Frame` function; the receiver as the `Receiver` class (an array buffer) and the `Step`/`Run` functions |
| `routing_table.dfy` | `RoutingTable` | `update_routing_table`, `remove_expired_routes`, `initialize_routing_table`; the `Table` class holds the array and the count |
| `advertisement.dfy` | `Advertisement` | the byte layout timer_thread writes and process_routing_packet reads |
| `send_scheduler.dfy` | `Scheduler` | `queue_send` and `send_thread` over the per-interface slots |
| `router.dfy` | `Router` | `data_handler`, `process_routing_packet`, `forward_packet` and one round of `timer_thread`, on the `Router` class |
| `relay.dfy` | `Relay` | router-02's `receive_handler` and `send_thread_func` |

### Modelling choices

- **State-changing code is imperative.** The table, the send slots, the SLIP
  receive buffer and router-02's buffers are classes with arrays. Each method
  is proved against a function on values (`Updated`, `Survivors`, `Submit`,
  `Put`/`Step`, `Announcement`, `ApplyOffers`), and the properties are proved
  about those functions.
- **Line failures.** A write to the line can fail. This is a parameter
  `failAt`: the index of the first byte write the line refuses, if any.
  `Slip.WriteByte` defines one `WRITE_BYTE` (slipnet.c:154-159) on that
  basis: write number `failAt` fails and appends nothing, every other write
  appends its byte. What a whole frame write then produces is stated by
  `Slip.WriteBody` and `Slip.WriteSlipData`.
- **Time.** `time(NULL)` is a parameter `now`.
- **Record size.** `sizeof(struct route_entry)` depends on the ABI, so it is
  a parameter `Layout`. Lemmas about concrete sizes use the x86-64 record of
  56 bytes.

## Model

| member | source | states |
|---|---|---|
| Bytes.Inc32 | router-01/router.c:336 | `ntohl(metric) + 1` in uint32: x + 1 below 0xFFFFFFFF, and 0xFFFFFFFF wraps to 0 |
| Bytes.Be16RoundTrip | router-01/router.c:454 | the htons encoding of any 16-bit value reads back as that value |
| Bytes.Be32RoundTrip | router-01/router.c:471-478 | the htonl encoding of any 32-bit value (count and metrics) reads back through ntohl as that value |
| Ipv6.Prefix | router-01/router.c:93-99 | the first 8 bytes are kept and the last 8 are zero |
| Ipv6.PrefixIdempotent | router-01/router.c:93-99 | taking the prefix twice is taking it once |
| Ipv6.PrefixSameNetwork | router-01/router.c:93-99 | an address's prefix has a zero host part and lies in the address's network |
| Ipv6.SamePrefixIsEquality | router-01/router.c:181 | for stored prefixes, the 8-byte memcmp match holds exactly when the prefixes are equal |
| Ipv6.WithHopLimit | router-01/router.c:365-366 | the copy has the same length, the new hop limit, and every other byte unchanged |
| Ipv6.Decremented | router-01/router.c:356-366 | the forwarded copy has hop limit one less; source, destination, next header, payload and every byte but offset 7 are unchanged |
| Ipv6.IsPacketForRouter | router-01/router.c:103-119 | the loop over the local addresses answers true exactly when the destination is one of them or ff02::1 |
| RoutingTable.Updated | router-01/router.c:166-225 | an update adds at most one entry, and only by appending within 29 entries with the old entries unchanged; with room in the table the network is present afterwards |
| RoutingTable.Find | router-01/router.c:180-181 | the search result is the first entry in the prefix's network, or the count when there is none |
| RoutingTable.FindIsFirstMatch | router-01/router.c:180-181 | the first matching index is what the search returns |
| RoutingTable.UpdateKnownNetwork | router-01/router.c:180-207 | for a known network only that entry changes: a strictly lower metric replaces it with a fresh timestamp; an equal metric overwrites gateway and direct flag and keeps the timestamp; a higher metric changes nothing |
| RoutingTable.UpdateUnknownNetwork | router-01/router.c:210-222 | an unseen network is appended while the table has fewer than 29 entries; in a full table the update is dropped |
| RoutingTable.UpdateNeverWorsens | router-01/router.c:166-225 | an update never removes an entry, moves it to another network or raises its metric; the table grows by at most one |
| RoutingTable.UpdatePreservesWellFormed | router-01/router.c:166-225 | an update keeps the table within 29 entries, host bits zero, and one entry per network |
| RoutingTable.Survivors | router-01/router.c:230-257 | the sweep never grows the table and no entry it keeps has expired |
| RoutingTable.SurvivorsAreUnexpired | router-01/router.c:230-257 | after the sweep the table holds exactly the entries that are direct or at most 100 seconds old, and no more entries than before |
| RoutingTable.SurvivorsOfConcat | router-01/router.c:236-254 | the sweep keeps order: sweeping a concatenation is concatenating the sweeps |
| RoutingTable.SurvivorsStep | router-01/router.c:236-254 | examining one more entry appends it exactly when it has not expired |
| RoutingTable.SurvivorsWhenNoneExpired | router-01/router.c:238-239 | when no entry has expired the sweep changes nothing |
| RoutingTable.DirectRoutesSurvive | router-01/router.c:237-239 | a direct route is never aged out |
| RoutingTable.SurvivorsPreserveWellFormed | router-01/router.c:230-257 | the sweep keeps the table well formed |
| RoutingTable.InitialRoutes | router-01/router.c:506-522 | start-up with the capacity check installs min(addresses, 29) routes, route k direct at metric 0 with address k as gateway |
| RoutingTable.InitialWritesAsWritten | router-01/router.c:509-518 | start-up as written installs one route per address, however many, route k direct at metric 0 with address k as gateway |
| RoutingTable.InitialRoutesWellFormed | router-01/router.c:506-522 | with local addresses in distinct networks the start-up table is well formed, and entry k is the direct metric-0 route to address k's network with address k as gateway |
| RoutingTable.InitialRoutesDuplicateNetwork | router-01/router.c:509-518 | two local addresses in one network give two entries for that network: start-up does not enforce one entry per network |
| RoutingTable.StartupWritesPastTable | router-01/router.c:509-518 | as written, more than 29 addresses (the argument check allows up to 100) make start-up write at index 29 or beyond, past the table |
| RoutingTable.Table.constructor | router-01/router.c:506-522 | start-up installs one direct route per address, in order, and stops at capacity |
| RoutingTable.Table.Update | router-01/router.c:166-225 | the in-place update leaves the table holding `Updated` of its old contents |
| RoutingTable.Table.RemoveAt | router-01/router.c:246-250 | the shift-down loop removes entry i and keeps the others in order |
| RoutingTable.Table.SweepStep | router-01/router.c:236-254 | one pass of the sweep loop extends the survivors of the entries examined so far by one entry |
| RoutingTable.Table.Age | router-01/router.c:230-257 | the in-place sweep leaves exactly `Survivors` of the old contents |
| RoutingTable.Table.Snapshot | router-01/router.c:438-442 | the copy taken under the lock is the table's current contents |
| Advertisement.RecordBytes | router-01/router.c:474-481 | a record is the configured record size long; prefix at 0, gateway at 16, and the metric in network order at 32 |
| Advertisement.Records | router-01/router.c:487-488 | the records occupy k record sizes for k entries |
| Advertisement.Announcement | router-01/router.c:445-446 | the packet is 60 bytes plus one record per entry |
| Advertisement.Header | router-01/router.c:449-461 | the IPv6 header written is exactly 40 bytes |
| Advertisement.HeaderFields | router-01/router.c:449-461 | the header bytes: 0x60, zero class and flow, htons length, next header 2, hop limit 1, the source, then ff02::1 |
| Advertisement.AnnouncementFields | router-01/router.c:444-488 | every field as the receiver reads it: header fields, payload length = size - 40 mod 2^16, sender = source, count = number of entries, then the records |
| Advertisement.AnnouncementLengthExact | router-01/router.c:454 | for any table that fits (at most 29 entries, x86-64 records) the payload length field is exact: htons does not truncate |
| Advertisement.LargeAnnouncementNotSendable | router-01/router.c:445-446 | with x86-64 records an advertisement of at most 16 routes fits a SLIP send (1006 bytes); one of 17 or more does not, so it is never sent |
| Advertisement.BuildAnnouncement | router-01/router.c:463-488 | the per-interface loop and the three copies build exactly `Announcement` |
| Advertisement.Offers | router-01/router.c:336-337 | entry k of what a receiver learns is the prefix and metric of advertised entry k |
| Advertisement.ParseRecords | router-01/router.c:333-337 | the loop never reads more than `num_advertised` records |
| Advertisement.Advertised | router-01/router.c:311-339 | a receiver learns something only from a packet of at least 60 bytes plus one record, and at most `num_advertised` records |
| Advertisement.ParseRecordsCount | router-01/router.c:334-335 | the loop reads at most `num_advertised` records, never past the buffer, and stops early only when less than a record remains |
| Advertisement.ParseFirst | router-01/router.c:329-337 | the first record read is the prefix and metric at the start of the records |
| Advertisement.ParseDrop | router-01/router.c:329-337 | after i records, the rest of the parse is the parse of the rest of the buffer with i fewer to read |
| Advertisement.ParseRecordAt | router-01/router.c:329-337 | `advertised_routes[i]` is read i record sizes into the records: prefix at offset 0, metric at 32 |
| Advertisement.ParseCons | router-01/router.c:336-337 | reading one record off the front yields its prefix and metric and leaves the remaining buffer |
| Advertisement.RecordsRoundTrip | router-01/router.c:329-337 | parsing the records written for a table yields every entry's prefix and metric, in order |
| Advertisement.AnnouncementRoundTrip | router-01/router.c:311-339 | a receiver of an advertisement of a non-empty table reads back exactly its (prefix, metric) list, in order |
| Advertisement.EmptyAnnouncementIgnored | router-01/router.c:317-321 | an empty table's advertisement is 60 bytes, shorter than the minimum, so the receiver learns nothing |
| Scheduler.Submit | router-01/router.c:284-293 | after queue_send the slot is busy; the packet is taken exactly when the slot was idle, and then the slot holds it |
| Scheduler.Run | router-01/router.c:266-293 | over any sequence of events no more packets are taken and no more sends finish than there were events |
| Scheduler.SubmitBusyDrops | router-01/router.c:287-291 | a busy slot drops the packet and keeps the one it is sending |
| Scheduler.AtMostOneInFlight | router-01/router.c:266-293 | starting idle, over any sequence of queues and finishes: packets taken = sends finished + (1 if a send is in flight); at most one send per interface is outstanding |
| Scheduler.SecondQueueDropped | router-01/router.c:284-293 | two packets queued back to back on an idle interface: the first is taken and the second dropped (one send) |
| Scheduler.SendSlots.constructor | router-01/router.c:527-532 | every slot starts idle |
| Scheduler.SendSlots.QueueSend | router-01/router.c:284-306 | the packet is taken exactly when the slot was idle; the slot becomes busy with that packet; other slots are unchanged |
| Scheduler.SendSlots.SendThread | router-01/router.c:266-279 | the slot's packet is written as a SLIP frame (or refused when of bad size), and the slot becomes idle whatever the result |
| Slip.EscapeLength | router-01/slipnet.c:177-188 | `Escape` (byte by byte through `EscapeByte`): the escaped body is one byte per data byte plus one per END or ESC |
| Slip.EscapeHasNoEnd | router-01/slipnet.c:177-188 | no END byte occurs in an escaped body |
| Slip.Frame | router-01/slipnet.c:176-189 | a frame is at least two bytes longer than the packet and starts and ends with END |
| Slip.FrameShape | router-01/slipnet.c:176-189 | a frame starts and ends with END, has no END in between, and is |p| + 2 + (END and ESC count) bytes long |
| Slip.WriteEscaped | router-01/slipnet.c:178-187 | the one or two writes for a data byte append its escape; on failure they stop short of it at the failing write |
| Slip.WriteNext | router-01/slipnet.c:177-188 | one pass of the loop extends the escaped prefix by data byte i, or stops at the failing write inside the body |
| Slip.WriteBody | router-01/slipnet.c:176-188 | the opening END and loop emit END + escaped packet, or a proper prefix of it ending at the failing write |
| Slip.WriteSlipData | router-01/slipnet.c:161-192 | a size ≤ 0 or above 1006 returns -1 and writes nothing; otherwise the whole frame is written and numbytes returned, or, when a write fails, exactly the frame up to that write and -1 |
| Slip.PutKeepsBound | router-01/slipnet.c:52-62 | `Put` stores at most the one byte it is given, after the bytes already held, and never fills the 1024-byte buffer; a byte it does not store marks the frame bad; the escape flag is untouched |
| Slip.StepKeepsBound | router-01/slipnet.c:52-62 | under `Step`, the receive position never reaches 1024 |
| Slip.StepOverflow | router-01/slipnet.c:52-62 | a byte that does not fit is dropped and marks the frame bad, delivering nothing |
| Slip.StepErrorFrame | router-01/slipnet.c:76-81 | in a bad frame every byte but END is ignored; END resets to the initial state without delivering |
| Slip.StepAfterEscape | router-01/slipnet.c:83-92 | after ESC, ESC_END stores END, ESC_ESC stores ESC, and any other byte is stored as itself |
| Slip.StepEnd | router-01/slipnet.c:94-117 | an unescaped END delivers a non-empty frame once and starts afresh; an empty frame is ignored |
| Slip.StepDelivery | router-01/slipnet.c:94-117 | `Step` hands a packet up exactly on an unescaped END in a good frame with bytes collected; it hands up those bytes and resets the state |
| Slip.RunDelivery | router-01/slipnet.c:64-127 | `Run` over any byte stream hands up at most one packet per byte, and never an empty one |
| Slip.RunEscape | router-01/slipnet.c:64-127 | receiving an escaped body appends exactly the original bytes and delivers nothing |
| Slip.RunEscapeByte | router-01/slipnet.c:83-121 | receiving one escaped data byte appends that byte |
| Slip.FrameRoundTrip | router-01/slipnet.c:64-127 | from the initial state, the frame for a packet of 1..1023 bytes makes the receiver deliver exactly that packet, once, and return to the initial state |
| Slip.WrittenFrameRoundTrip | router-01/slipnet.c:161-192 | every packet write_slip_data accepts (1..1006 bytes) is delivered intact by the receiver |
| Slip.Receiver.constructor | router-01/slipnet.c:143-145 | the receive state starts empty, not escaped and not in error |
| Slip.Receiver.PutCharInBuffer | router-01/slipnet.c:52-62 | the array-backed buffer takes the state `Put` gives |
| Slip.Receiver.DataHandlerForTty | router-01/slipnet.c:64-127 | for each byte, the new state and the delivered packet are the ones `Step` gives |
| Router.Classify | router-01/router.c:380-419 | a forwarded copy only comes from a whole header with hop limit above 1, and is that packet decremented |
| Router.ForwardCharacterised | router-01/router.c:380-419 | a packet is forwarded exactly when it has a whole header, is not for the router, and its hop limit is above 1; the copy differs only in hop limit, which is one less |
| Router.LocalPacketsStay | router-01/router.c:404-414 | packets for a local address or ff02::1 are never forwarded, and are processed as advertisements exactly when next header is 2 |
| Router.ExpiringPacketsDropped | router-01/router.c:350-354 | a packet with hop limit 0 or 1 is never forwarded |
| Router.ApplyOffers | router-01/router.c:333-338 | applying an advertisement never shrinks the table and never takes it past 29 entries |
| Router.ApplyOffersStep | router-01/router.c:335-338 | one loop pass applies update_routing_table for record i with the source as gateway, metric + 1 (uint32) and not direct |
| Router.ApplyOffersPreservesWellFormed | router-01/router.c:311-339 | processing an advertisement keeps the table well formed |
| Router.ApplyOffersNeverWorsens | router-01/router.c:311-339 | an advertisement never removes a route, moves it to another network or raises its metric |
| Router.UpdateOffersRoute | router-01/router.c:180-222 | when the network is known or the table has room, after an update the network has a route whose metric is at most the offered one |
| Router.ApplyOffersGrowth | router-01/router.c:335-338 | each record adds at most one entry |
| Router.ApplyOffersRelaxes | router-01/router.c:333-338 | distance-vector relaxation: an advertised network already in the table, or any advertised network when there is room for every record, ends with a route of metric at most advertised + 1 |
| Router.WrappedMetricDemotesDirectRoute | router-01/router.c:336-337 | an advertised metric 0xFFFFFFFF wraps to 0 and demotes a direct route to a learned one via the neighbour with its old timestamp, which a later sweep then removes |
| Router.NeighbourAdvertisement | router-01/router.c:311-339 | with interfaces 2001:db8:1::1 and 2001:db8:2::1, an advertisement from 2001:db8:1::2 of 2001:db8:3:: at metric 0 adds exactly 2001:db8:3::/64 at metric 1 via 2001:db8:1::2 |
| Router.AdvertisedLayout | router-01/router.c:318-335 | the number of records read is min(num_advertised, (numbytes - 60) / record size) |
| Router.AdvertisedRecord | router-01/router.c:325-336 | record i is read at offset 60 + i * record size, within the buffer |
| Router.Router.constructor | router-01/router.c:506-532 | start-up: the table holds the direct routes that fit, and every send slot is idle |
| Router.Router.ProcessRoutingPacket | router-01/router.c:311-339 | the table afterwards is the old table with each record read from the buffer applied in order (unchanged when the buffer is shorter than 60 bytes plus one record) |
| Router.Router.LearnRecord | router-01/router.c:335-338 | one loop pass applies the record at the running offset to the table |
| Router.Router.ForwardPacket | router-01/router.c:344-375 | hop limit ≤ 1 queues nothing; otherwise the decremented copy is offered to the arrival interface's slot, and no other slot changes |
| Router.Router.DataHandler | router-01/router.c:380-419 | the verdict is `Classify`'s; only a routing update changes the table, learning from the packet's IPv6 source; only a forward changes a slot |
| Router.Router.TimerRound | router-01/router.c:428-497 | the table is aged; then interface i's slot is offered the advertisement of the aged table from address i, and the slots past the interfaces are untouched |
| Relay.Relayed | router-02/router.c:98-131 | a copy is relayed only for a whole header; it is as long as the packet, keeps source and destination, and has hop limit one less |
| Relay.Staged | router-02/router.c:147-153 | the staged buffer holds the copy at its start with the rest of the data area unchanged; its size, tty and destination are the copy's |
| Relay.AgreesWithRouter | router-02/router.c:92-168 | for packets not addressed to router-01 itself, the draft forwards exactly what router-01 forwards, with the same copy |
| Relay.ForwardsLocalPackets | router-02/router.c:113-131 | the draft forwards packets addressed to the router itself, which router-01 keeps |
| Relay.RelayState.constructor | router-02/router.c:28-31 | flags start clear and buffers zeroed |
| Relay.RelayState.ReceiveHandler | router-02/router.c:92-168 | short and hop-limit-expired packets are dropped; a busy tty drops the packet; otherwise the decremented copy is staged and the flag set exactly when the thread starts; no other tty changes |
| Relay.RelayState.SendThreadFunc | router-02/router.c:57-89 | a staged packet is written as a SLIP frame and the buffer emptied; an empty buffer sends nothing; the flag is cleared either way |

## Left out

- The byte transport under SLIP (`simnet.c`, `write_tty_data`, `install_tty_data_handler`) is left out. Each byte write is a success or a failure chosen by the `failAt` parameter, and an interface's fd is its index.
- Argument parsing, the `simconfig` file, `main`, and the earlier single-file router (`router-og.c`) are left out. So are `print_packet`, `print_routing_table` and all logging.
- Threads, mutexes, `sleep(30)` and `pthread_create` are left out. Each entry point runs atomically. `queue_send`'s spawned thread is a later call of `Scheduler.SendSlots.SendThread`.
- `time(NULL)` becomes a parameter.
- `malloc` failure is not modelled. This covers `forward_packet`'s NULL check and router-02's allocation check.
- In `data_handler_for_tty` (slipnet.c:96-101), the case where no slip data handler is installed is not modelled. The router installs its handler before any byte can arrive.
- Advertisement.RecordBytes: the record's bytes after the metric are padding plus host-order `timestamp` and `is_direct`. They are taken as zeros, because no receiver reads them.
- The record size (`sizeof(struct route_entry)`) is a parameter. Concrete length lemmas use the x86-64 size of 56 bytes.
- Router.Router.ProcessRoutingPacket: the loop reads record i at a running offset, which replaces the pointer `&advertised_routes[i]`. Both give offset 60 + i × size.
- Scheduler.SendSlots.SendThread: the partial frame written when the line fails is stated in `Slip.WriteSlipData`'s contract, not repeated in this one.
- Relay.RelayState.SendThreadFunc: the partial frame written when the line fails is stated in `Slip.WriteSlipData`'s contract, not repeated in this one.
- Relay.RelayState.ReceiveHandler requires the packet to fit the 1024-byte `packet_buffer.data` that it is copied into. SLIP never delivers more than 1023 bytes.
- Router.Router.TimerRound queues interface i's advertisement on send slot i, as `queue_send(i, …)` does.
- Three behaviours of the code are modelled as they are:
  - An equal metric overwrites the gateway and the direct flag and keeps the timestamp. A direct route can therefore become a learned one (`Router.WrappedMetricDemotesDirectRoute`), and a later sweep can then remove it.
  - The gateway learned is the IPv6 source address, not the routing header's sender field.
  - Forwarding always queues on the arrival interface. No route lookup is made.

## Findings

| source | as written | input that shows it | evidently intended | confidence | as-written member | corrected member |
|---|---|---|---|---|---|---|
| router-01/router.c:509-518 | start-up stores one direct route per local address with no capacity check; the address count is bounded only by MAX_TTYS (100, line 546), while the table holds 29 | 30 local addresses: the 30th is written to `routing_table[29]`, one past the end | stop installing direct routes once the table is full, as `update_routing_table` does for learned ones | not executed | RoutingTable.StartupWritesPastTable | RoutingTable.Table.constructor |
