# RIP version 2 routing engine, modelled in Dafny

This project models the routing engine of a small Java RIP version 2 daemon.
The engine keeps a routing table of entry objects and a separate list of
neighbor records. It encodes the table into RIP response packets, applying
split horizon with poisoned reverse, and decodes received packets back into tables.
It merges a neighbor's update into the table with the distance-vector rule.
It also runs the two per-entry timer tasks: expiration, which makes routes
unreachable and arms deletion, and deletion, which removes the entry.

The model follows the Java classes one to one:

| Dafny module | Java source | form |
|---|---|---|
| `Bytes` | Java `int`/`short`/`byte[]` semantics | functions and lemmas |
| `Routes` | the value fields of `RoutingTableEntry`, list queries | datatype, functions, lemmas |
| `Wire` | the byte layout of `createPacket` / `createTable` | functions and lemmas |
| `Merge` | the rule computed by `updateTable` | functions and lemmas |
| `Table` | `RoutingTableEntry`, `RoutingTable`, the timer handles | classes with `modifies`/`reads` |
| `Router` | `RipRouter` | class with fields `table`, `neighbors`, `outbox`, `scheduled` |
| `ExpirationTimer` | `ExpirationTimer.ExpireEntry.run` | method on the router |
| `DeletionTimer` | `DeletionTimer.DeleteEntry.run` | method on the router |

The model's main choices:

- **Mutable objects are classes, compared by identity.**
  - A `RoutingTableEntry` is a `Table.Entry` whose fields are a `route` value and a `timer` handle.
  - The table is a `seq<Entry>`, and so is the neighbor list.
  - Identity is what makes the source's aliasing observable, and the model reproduces it:
    - the decoded update entry object itself is inserted into the table (`RipRouter.java:191-194`);
    - a resurrection raises the flag on the neighbor record and not on the new entry (`RipRouter.java:167`);
    - `remove(entry)` removes by identity (`DeletionTimer.java:24`).
- **Every imperative method's effect on the routes is proved against a pure function.**
  - `CreatePacket` produces `Wire.Packet`, and `CreateTable` produces `Wire.Decode`.
  - `UpdateTable` leaves the table at `Merge.MergeAll(Merge.Resurrect(...), ...)`.
  - `ExpireRoutes` leaves it at `ExpireRows`.
  - The properties of the source are then proved as lemmas about these functions.
  - The effects on timers are stated by the two-state predicates `ResetDone`, `ClockDoneFor` and `Armed`, not by a function. These predicates relate each entry's timer and the pending set before and after the call.
- **Java `int` arithmetic is modelled exactly.** Metrics are `Int32`. `Add32` wraps on overflow. Integers are written big-endian in two's complement, as `ByteBuffer` does.
- **Timers are handles plus a pending set.**
  - A `Timer` records its kind and the entry it was created for.
  - The router's set `scheduled` holds the timers whose task is still pending.
  - `cancel()` removes a timer from that set. A task's `run` is an explicit method taking the pending timer that fired.
  - Which timer fires when is left to the caller.
- **Sending is an append to `outbox`.** Each send is one `Datagram(receiver, port, payload)` appended to that sequence.

The model follows the code as written, including where it behaves
differently from RFC 2453 or from what its comments suggest:

- **Learned routes are not clamped.** A new destination is learned only when the announced metric is
  below INF (`RipRouter.java:190`). It is then stored at announced + cost, with no clamp to INF
  (`Merge.MergeOneUnknown`); the clamp at `RipRouter.java:215` is applied only to existing entries.
  Section 3.9.2 of RFC 2453 computes MIN(metric + cost, infinity) for every route.
- **Announced metrics are not validated, so an existing route can become negative.** Section 3.9.2
  of RFC 2453 has the receiver check that each metric is between 1 and 16; the code takes any `int`.
  The sum announced + cost wraps like a Java `int` (`RipRouter.java:191`). An announced 0x7fffffff over a
  cost of 1 wraps to -2^31, which replaces a stored route through another router at any higher metric
  (`RipRouter.java:208-210`). The clamp at `RipRouter.java:215` bounds the metric only from above, so the
  route stays negative (`Merge.OverflowedOfferWins`).
- **A payload with trailing bytes is accepted.** `createTable` reads `(length - 4) / 20` entries with truncating
  division and ignores bytes that do not fill a whole entry (`RoutingTable.java:140`).
- **An unrecognised command still changes state.** It sends nothing, but the table is still merged, timers are reset, the
  deletion clock is configured and the flags are cleared (`RipRouter.java:246-266`).
- **Not every replaced timer is cancelled.**
  - configureDeletionClock and the expiration task give an entry a new deletion timer without cancelling the one it held (`RipRouter.java:302`, `ExpirationTimer.java:31`).
  - The cancelled branch of configureDeletionClock leaves the cancelled timer in the entry's field (`RipRouter.java:305`).
- **Expiry arms deletion only for the timed-out entry.** The routes through it that the expiration task sets to INF keep
  their change flag down (`ExpirationTimer.java:26-30`), so the expiry itself does not give them a deletion timer; only
  the timed-out entry gets one (`ExpirationTimer.java:31`). A later update from their next hop raises the flag
  (`RipRouter.java:204`), and configureDeletionClock then arms one for a route still at INF (`RipRouter.java:301-302`).
- **A route learned for a non-neighbor destination never gets an expiration timer.** resetTimer arms a timer only for entries whose destination is a
  neighbor and is the sender (`RipRouter.java:286-287`), so an entry learned for a destination that is not a neighbor
  holds no expiration timer until configureDeletionClock gives it a deletion timer.

## Model

| member | source | states |
|---|---|---|
| Bytes.Add32 | RipRouter.java:191 | Java `int` addition: the true sum when it fits, otherwise wrapped once by 2^32, negative after a positive overflow and non-negative after a negative one |
| Bytes.ShortRoundTrip | RoutingTable.java:117-118 | getShort reads back every 16-bit value putShort wrote |
| Bytes.IntRoundTrip | RoutingTable.java:124-126 | getInt reads back every Java `int` putInt wrote, negative values included |
| Bytes.PrefixIsMasked | RoutingTable.java:166-172 | a network prefix has no bit outside its mask, so masking it again changes nothing |
| Bytes.OnesCountBound | RoutingTable.java:180-188 | the set-bit count of a byte string is at most 8 per byte |
| Bytes.OnesOfFullAndEmptyBytes | RoutingTable.java:180-188 | a byte 0xFF has eight set bits and a zero byte none |
| Routes.FirstIndex | RoutingTable.java:68-74 | the position found has the destination and no earlier entry has it (the first match) |
| Routes.ClearFlags | RoutingTable.java:93-97 | no flag is left up and every other field of every row is kept |
| Routes.RemoveFirst | DeletionTimer.java:24 | List.remove(Object): an absent element leaves the list unchanged; otherwise exactly its first occurrence is dropped |
| Routes.RemoveFirstFromDistinct | DeletionTimer.java:24 | from a list without repeats the element is gone afterwards, no repeat appears and every other element remains |
| Wire.EntryCount | RoutingTable.java:140 | the counted entries fit inside the datagram, or none are counted |
| Wire.EntryInside | RoutingTable.java:140-155 | every entry createTable reads lies wholly inside the datagram |
| Wire.Decode | RoutingTable.java:138-157 | createTable yields exactly `(length - 4) / 20` entries (none for a datagram shorter than the header) |
| Wire.AdvertisedMetric | RoutingTable.java:122-127 | defined by its body; its property is stated by Wire.PoisonedReverse |
| Wire.EncodeEntry | RoutingTable.java:116-127 | one entry is 20 bytes; its layout is stated by Wire.EntryFields |
| Wire.Packet | RoutingTable.java:107-130 | defined by its body; its layout is stated by Wire.PacketLayout and its round trip by Wire.DecodeEncode |
| Wire.EntryAt | RoutingTable.java:147-154 | defined by its body (one entry read at a cursor position, flag lowered); its round trip is stated by Wire.DecodeEncodeEntry |
| Wire.EncodeEntriesLength | RoutingTable.java:108 | the entry area is 20 bytes per table entry |
| Wire.PacketLayout | RoutingTable.java:107-130 | the packet is 4 + 20n bytes: header [command, 2, 0, 0], then entry i at bytes 4 + 20i to 24 + 20i |
| Wire.EntryFields | RoutingTable.java:116-127 | each 20-byte entry holds AFI, tag, destination, mask, next hop and the advertised metric at their offsets |
| Wire.DecodeEncodeEntry | RoutingTable.java:147-154 | reading one encoded entry gives back the route as advertised, flag lowered |
| Wire.DecodeEncode | RoutingTable.java:107-157 | createTable applied to createPacket's output recovers every entry in order, each field intact, the metric changed only where poisoned |
| Wire.PoisonedReverse | RoutingTable.java:122-127 | the receiver reads INF for a route whose next hop is the receiver unless it is the direct route to it, and the stored metric otherwise |
| Wire.DecodeIgnoresTrailingBytes | RoutingTable.java:140 | bytes that do not complete an entry do not change the decoded table |
| Merge.FlagRecords | RipRouter.java:162-170 | defined by its body (the records for the sender get their flag raised); beyond that, only flags change (`ClearFlags` of the result is `ClearFlags` of the records), the same destinations are present, destinations stay unique exactly when they were, and some flag is up exactly when one was already or some record is for the sender; Router.RipRouter.ReviveNeighbors is proved against it |
| Merge.ConfiguredMetric | RipRouter.java:171-176 | defined by its body (the metric of the last record for the sender, else the current one); its properties are stated by Merge.SingleNeighborRecord and Merge.NoNeighborRecord |
| Merge.Copies | RipRouter.java:162-169 | defined by its body (one flag-lowered copy per record for the sender); its properties are stated by Merge.CopiesAreForSender and Merge.CopiesOfNeighbor |
| Merge.Resurrect | RipRouter.java:159-177 | defined by its body; its properties are stated by Merge.ResurrectOneNeighbor, Merge.ResurrectKeepsDestinations and Merge.ResurrectHasSender |
| Merge.ResurrectRecords | RipRouter.java:159-177 | defined by its body (FlagRecords when the sender's entry is missing, else the records unchanged); Router.RipRouter.UpdateTable is proved against it |
| Merge.CostTo | RipRouter.java:186 | defined by its body (the metric of the sender's first entry); Merge.ResurrectHasSender shows it is always defined |
| Merge.Clamp | RipRouter.java:215-216 | an existing entry's metric never exceeds INF after an update entry |
| Merge.Relax | RipRouter.java:198-216 | defined by its body; its properties are stated by Merge.MergeOneViaSender and Merge.MergeOneOtherRoute |
| Merge.MergeOne | RipRouter.java:179-217 | one update entry adds at most one row, keeps every destination in place and keeps the sender's entry |
| Merge.MergeAll | RipRouter.java:179-217 | the whole loop only appends, keeps every destination in place and keeps the sender's entry |
| Merge.MergeOneSkipsLocal | RipRouter.java:182-185 | an update entry for the local host changes nothing |
| Merge.MergeOneUnknown | RipRouter.java:187-195 | an unknown destination is learned only below INF, at announced + cost through the sender, flagged and unclamped; otherwise nothing changes |
| Merge.MergeOneViaSender | RipRouter.java:198-205 | a route already through the sender takes the new sum, worse or better, capped at INF, and is flagged |
| Merge.MergeOneOtherRoute | RipRouter.java:206-216 | a route through another router switches to the sender exactly when the offer is strictly cheaper; the metric becomes the smaller of the two capped at INF; identity fields are kept |
| Merge.MergeAllLeavesLocalAlone | RipRouter.java:182-185 | no update creates an entry for the local host or modifies one |
| Merge.MergeAllKeepsUnique | RipRouter.java:179-217 | a table with one entry per destination keeps that property under any update |
| Merge.MergeAllStepFacts | RipRouter.java:198-216 | across a whole update, metrics within INF stay within INF, flags are never lowered and routes through the sender stay through the sender |
| Merge.MergeAllAppended | RipRouter.java:187-195 | every entry an update adds is a flagged route through the sender to an announced destination other than the local host |
| Merge.SingleNeighborRecord | RipRouter.java:162-176 | with one record for the sender, a resurrection copies exactly that record and the sender's metric becomes the record's |
| Merge.NoNeighborRecord | RipRouter.java:162-176 | with no record for the sender, nothing is copied and the metric is unchanged |
| Merge.ResurrectOneNeighbor | RipRouter.java:158-177 | with one record per neighbor, a missing neighbor gets exactly one new entry copied from its record, a present one only its metric reset, and either way the sender has an entry afterwards |
| Merge.ResurrectKeepsDestinations | RipRouter.java:158-177 | the first half of updateTable keeps every existing destination in place |
| Merge.CopiesAreForSender | RipRouter.java:162-169 | recreated entries are for the sender and carry no flag |
| Merge.CopiesOfNeighbor | RipRouter.java:162-169 | a sender with a record always gets a recreated entry |
| Merge.ResurrectHasSender | RipRouter.java:158-186 | after the first half the sender has an entry, so costToNextHop at line 186 is always defined |
| Merge.ScenarioLearnRoute | RipRouter.java:187-195 | neighbor A at cost 1 announcing D at 3 teaches D through A at 4 |
| Merge.ScenarioPoisonFromNextHop | RipRouter.java:198-205 | the next hop announcing INF makes the route INF, flagged |
| Merge.ScenarioBetterRoute | RipRouter.java:206-213 | a strictly cheaper offer from B moves the route to B at the new cost, flagged |
| Merge.OverflowedOfferWins | RipRouter.java:206-216 | an existing route through another router, at any metric above -2^31, is replaced when the sender announces 0x7fffffff over a cost of 1: the sum wraps to -2^31 and the clamp leaves it negative |
| Table.Entry.constructor | RoutingTable.java:33-40 | a new entry holds exactly the given fields, flag down, no timer |
| Table.RoutingTable.AddEntry | RoutingTable.java:49-51 | the very object is appended |
| Table.RoutingTable.AddNewEntry | RoutingTable.java:30-42 | a fresh entry with the given fields and no timer is appended; the earlier entries are untouched |
| Table.RoutingTable.GetEntryByDestination | RoutingTable.java:68-74 | null exactly when no entry has the destination, otherwise the first entry that has it |
| Table.RoutingTable.IsUpdated | RoutingTable.java:81-87 | true exactly when some entry's flag is up |
| Table.RoutingTable.ResetRoutingChangeFlags | RoutingTable.java:93-97 | every flag lowered and nothing else changed |
| Table.RoutingTable.CreatePacket | RoutingTable.java:107-130 | the buffer is `Packet(command, rows, receiver)`, whose layout and round trip are proved in Wire |
| Table.RoutingTable.CreateTable | RoutingTable.java:138-157 | a fresh table whose rows are `Decode(p)`, made of new distinct entries without timers |
| Table.RoutingTable.GetNetworkPrefix | RoutingTable.java:166-172 | a new 4-byte array holding the bytewise AND of address and mask |
| Table.RoutingTable.NumberOfOnes | RoutingTable.java:180-188 | the count equals the number of set bits and lies between 0 and 8 per byte |
| Router.Broadcast | RipRouter.java:127-131 | defined by its body (one datagram per receiver, in order, to port 520); Router.RipRouter.SendUpdate is proved against it |
| Router.RequestReply | RipRouter.java:250-253 | defined by its body; Router.RipRouter.AnswerRequest is proved against it |
| Router.TriggeredUpdate | RipRouter.java:256-262 | defined by its body; Router.RipRouter.TriggerUpdate is proved against it |
| Router.Replies | RipRouter.java:250-262 | defined by its body (the request reply, then the triggered update); Router.RipRouter.Respond is proved against it |
| Router.RipRouter.constructor | RipRouter.java:31-44 | an empty table, no neighbors, nothing sent, nothing pending |
| Router.RipRouter.AddNeighbor | RipRouter.java:67-81 | the table and the neighbor list each gain the direct route (next hop = destination) as separate objects; the old entry and record objects stay in front, and the one added to each list is a fresh object, distinct from the other; the table entry has no timer |
| Router.RipRouter.IsNeighbor | RipRouter.java:113-120 | true exactly when some neighbor record has the address |
| Router.RipRouter.SendUpdateTo | RipRouter.java:140-150 | exactly one datagram to the receiver and port, carrying the table encoded for that receiver |
| Router.RipRouter.SendUpdate | RipRouter.java:127-131 | one datagram per neighbor record, in list order, to port 520, each encoded for its receiver |
| Router.RipRouter.Rearm | RipRouter.java:288-290 | the held timer is cancelled and a new pending expiration timer for this entry replaces it |
| Router.RipRouter.ResetTimer | RipRouter.java:284-293 | for a neighbor address, every entry for it has its timer cancelled and replaced by a new pending expiration timer; every other entry keeps its timer and pending state; only timers held by entries are cancelled; every timer that becomes pending is held by an entry; no value changes |
| Router.RipRouter.ClockAt | RipRouter.java:301-306 | a flagged entry at INF gets a new pending deletion timer with the old one left as it was; a flagged entry below INF has a deletion timer it holds cancelled but kept in its field |
| Router.RipRouter.ConfigureDeletionClock | RipRouter.java:299-308 | ClockAt's outcome for every entry; only timers held by entries are cancelled; every timer that becomes pending is held by an entry; no value changes |
| Router.RipRouter.Revive | RipRouter.java:163-169 | one fresh entry copied from the record with a pending expiration timer; the record, not the entry, has its flag raised; only timers held by the old entries are cancelled |
| Router.RipRouter.ReviveNeighbors | RipRouter.java:161-170 | the table becomes old rows + Copies and the records become FlagRecords; entries already there keep their timers; each copy is fresh with a pending expiration timer that was not pending before; no pending timer is cancelled |
| Router.RipRouter.ConfigureSender | RipRouter.java:171-177 | the sender's entry alone takes the metric of the last record for the sender |
| Router.RipRouter.RestoreSender | RipRouter.java:159-177 | the table becomes `Resurrect(...)` and the records `ResurrectRecords(...)`; old entries keep their timers; anything added is fresh |
| Router.RipRouter.Learn | RipRouter.java:190-195 | below INF the update entry object itself is appended, redirected through the sender at the sum and flagged; otherwise nothing changes |
| Router.RipRouter.RelaxEntry | RipRouter.java:198-216 | the entry's value becomes `Relax(old value, sum, sender)` and no other entry changes |
| Router.RipRouter.MergeEntry | RipRouter.java:180-216 | the table moves by exactly one `MergeOne` step and grows by at most the update entry itself |
| Router.RipRouter.MergeUpdate | RipRouter.java:179-217 | the table becomes `MergeAll(old rows, update rows)`; the old entries stay in front; every added entry is an update entry |
| Router.RipRouter.UpdateTable | RipRouter.java:158-218 | the table becomes `MergeAll(Resurrect(rows, records), update)`; the records become `ResurrectRecords`; old entries stay in front with their timers and pending state; added entries are fresh or update entries, holding no timer pending before; no pending timer is cancelled |
| Router.RipRouter.AnswerRequest | RipRouter.java:250-253 | a request is answered with one response to the sender's address and port; anything else sends nothing |
| Router.RipRouter.TriggerUpdate | RipRouter.java:256-262 | after a request or response with some flag up, a response to every neighbor; otherwise nothing |
| Router.RipRouter.Respond | RipRouter.java:250-262 | the answer to a request, then the triggered update, both from the merged table |
| Router.RipRouter.ConfigureClock | RipRouter.java:264 | for every entry, configureDeletionClock's outcome read from its merged row's flag and metric (`ClockDoneFor`): flagged at INF, a new pending deletion timer, the timer it held keeping its pending state; flagged below INF, a held deletion timer cancelled and left in the field; otherwise timer and pending state kept; only timers held by entries are cancelled |
| Router.RipRouter.ClearChangeFlags | RipRouter.java:266 | every table flag lowered; the neighbor records keep theirs |
| Router.RipRouter.Settle | RipRouter.java:264-266 | the deletion clock is set entry by entry from the merged rows as ConfigureClock states, then the table is the merged table with every flag lowered |
| Router.RipRouter.ResetAndUpdate | RipRouter.java:246-248 | resetTimer then updateTable: the table becomes the merged table, the records `ResurrectRecords`, the old entries stay in front and any added entry is fresh or an update entry; every old entry for the sender holds a new pending expiration timer, and every other old entry keeps its timer and its pending state; a pending timer no entry holds stays pending |
| Router.RipRouter.Handle | RipRouter.java:246-266 | readUpdate for a neighbor: the table is the merged table with every flag lowered, the records `ResurrectRecords`, the replies come from the merged table, flagged entries get the deletion clock, and a pending timer no entry held stays pending; the old entry objects stay in front, in order, and every added entry is fresh or one of the update's entries |
| Router.RipRouter.ReadUpdate | RipRouter.java:233-267 | an update from a non-neighbor leaves the entries, rows, timers, records, pending set and outbox as they were; otherwise the table is the merged table with flags lowered, the records are `ResurrectRecords`, the replies come from the merged table, and flagged entries get the deletion clock, the old entry objects stay in front, in order, and every added entry is fresh or one of the update's entries; a pending timer no entry held stays pending |
| ExpirationTimer.ExpireRows | ExpirationTimer.java:26-30 | the expired table has as many rows as before |
| ExpirationTimer.ExpireRowsFields | ExpirationTimer.java:26-30 | only metrics change: routes through the timed-out destination go to INF, others keep their metric, no flag is raised |
| ExpirationTimer.ExpireRowsIdempotent | ExpirationTimer.java:26-30 | expiring twice is expiring once |
| ExpirationTimer.ExpireRowsDestinations | ExpirationTimer.java:26-30 | destinations and flags are untouched, so lookups and the triggered-update test see the same table |
| ExpirationTimer.ExpiredRoutesAnnouncedUnreachable | ExpirationTimer.java:26-32 | every route through the timed-out destination is announced at INF in the response that follows |
| ExpirationTimer.ExpireAt | ExpirationTimer.java:27-29 | one loop turn expires exactly the entry at its position |
| ExpirationTimer.ExpireRoutes | ExpirationTimer.java:26-30 | the table becomes `ExpireRows(old rows, destination)`; the records are untouched |
| ExpirationTimer.ArmDeletion | ExpirationTimer.java:31 | the entry holds a new pending deletion timer; its previous timer is not cancelled; the fired timer is no longer pending |
| ExpirationTimer.ExpireEntry | ExpirationTimer.java:25-33 | routes through the entry's destination go to INF; the entry gets a new pending deletion timer; other entries keep their timers; a response goes to every neighbor from the expired table |
| DeletionTimer.RowsRemoved | DeletionTimer.java:24 | removing the object at position k removes exactly row k |
| DeletionTimer.RemovePreservesValid | DeletionTimer.java:24 | after a removal the table still has no repeats, no neighbor records and each timer belongs to its entry |
| DeletionTimer.RemoveEntry | DeletionTimer.java:24 | the table becomes `RemoveFirst(old, entry)` and no longer holds the entry |
| DeletionTimer.DeleteEntry | DeletionTimer.java:23-26 | the entry leaves the table and every other row stays in order; the fired timer is no longer pending; a response goes to every neighbor from the reduced table |

## Left out

- The socket, `Inet4Address` and the host lookup. Sends are appends to `outbox`. The send exceptions that are caught and logged are not modelled, and nor is the local address lookup; the address is a constructor parameter.
- UpdateListener, RegularUpdate and RipRouterApplication. These are the receive loop, the periodic broadcast and the command line: I/O and scheduling. `ReadUpdate` takes the header and the decoded table the listener would pass.
- Time and threads. Timer periods, `java.util.Timer` threads and the concurrency between them and the listener are not modelled. A timer task runs as an explicit transition for a timer in `scheduled`.
- `start`, `setTimers` and `sendRequest`. These only sequence `resetTimer`, `sendUpdate(REQUEST)` and the threads above, and are not modelled separately.
- `toString`, console printing and `pow`. Printing is output only. `(b & pow(2, i)) >>> i` is modelled directly as the bit test `Bytes.BitAt`.
- Router.RipRouter.ReadUpdate: the header must hold at least its command byte. The listener always passes four bytes. The update must consist of distinct entry objects that have no timer and are neither table entries nor neighbor records. That is how `createTable` makes them (`Table.RoutingTable.CreateTable` ensures it).
- Router.RipRouter.ReadUpdate: does not restate the expiration timers that `resetTimer` rearms before the merge (`Router.RipRouter.ResetTimer` states them). Of the deletion clock it states only the outcome for entries whose merged flag is up (`DeletionClockSet`). The entry-by-entry outcome, including that an unflagged entry keeps its timer, is stated by `Router.RipRouter.ConfigureClock` and `Router.RipRouter.Settle` against the state after the merge.
- Router.RipRouter.Handle: states the deletion-clock outcome in the same weaker form as ReadUpdate, for the same reason.
- Router.RipRouter.RespondAndSettle: states the deletion-clock outcome in the same weaker form as ReadUpdate, for the same reason.
- Router.RipRouter.UpdateTable: the pending expiration timers of recreated entries are stated by `Router.RipRouter.ReviveNeighbors` and not repeated in UpdateTable's contract.
- Router.RipRouter.ResetAndUpdate: does not restate that the timer an entry for the sender held before stays cancelled after the merge; `Router.RipRouter.ResetTimer` states the cancellation. The recreated entries' timers are stated by `Router.RipRouter.ReviveNeighbors`, as for UpdateTable.
- Router.RipRouter.ReadUpdate: tests the sender with `HasDestination(Rows(neighbors), sender)`, the value `Router.RipRouter.IsNeighbor` is proved to return (RipRouter.java:236), rather than calling that method.
- Router.RipRouter.ResetTimer: `isNeighbor(entry.destination)` is asked once, for `hostAddress`, before the loop. The loop changes only timers, and the test is only reached for entries whose destination is `hostAddress`, so the outcome is the same.
- Wire.Decode: the update datagram's buffer is assumed to hold its declared length; the listener's bounded receive buffer is not modelled.
