/** RipRouter: the routing table, the neighbor records kept for reference,
    the per-entry timers, and the datagrams the router sends. Sending is
    modelled as appending to `outbox`; the socket is not modelled. */
module Router {
  import opened Bytes
  import opened Routes
  import opened Wire
  import opened Merge
  import opened Table

  /** RipRouter.PORT: the UDP port every neighbor listens on. */
  const PORT: int := 520

  /** A UDP datagram handed to the socket. */
  datatype Datagram = Datagram(receiver: Addr, port: int, payload: seq<bv8>)

  function Destinations(ns: seq<Route>): (ds: seq<Addr>)
    ensures |ds| == |ns| && forall i :: 0 <= i < |ns| ==> ds[i] == ns[i].destination
  {
    seq(|ns|, i requires 0 <= i < |ns| => ns[i].destination)
  }

  /** sendUpdate's datagrams: one per neighbor, in list order, each packet
      encoded for its receiver. */
  function Broadcast(command: bv8, rows: seq<Route>, receivers: seq<Addr>): seq<Datagram>
  {
    seq(|receivers|, i requires 0 <= i < |receivers| =>
      Datagram(receivers[i], PORT, Packet(command, rows, receivers[i])))
  }

  /** readUpdate's answer to a request: the table, encoded for the
      requester, back to its address and port. */
  function RequestReply(command: bv8, rows: seq<Route>, sender: Addr, senderPort: int): seq<Datagram> {
    if command == REQUEST then [Datagram(sender, senderPort, Packet(RESPONSE, rows, sender))] else []
  }

  /** readUpdate's triggered update: after a request or a response, a
      response to every neighbor if some entry's change flag is up. */
  function TriggeredUpdate(command: bv8, rows: seq<Route>, receivers: seq<Addr>): seq<Datagram> {
    if (command == REQUEST || command == RESPONSE) && AnyChanged(rows) then Broadcast(RESPONSE, rows, receivers) else []
  }

  /** What readUpdate sends once the update is merged into `rows`: the
      answer to a request, then the triggered update. Any other command
      sends nothing. */
  function Replies(command: bv8, rows: seq<Route>, sender: Addr, senderPort: int, receivers: seq<Addr>): seq<Datagram> {
    RequestReply(command, rows, sender, senderPort) + TriggeredUpdate(command, rows, receivers)
  }

  /** Each entry's timer, if any, was created for that entry, so no two
      entries share a timer. */
  ghost predicate OwnTimers(es: seq<Entry>)
    reads es`timer
  {
    forall i :: 0 <= i < |es| && es[i].timer != null ==> es[i].timer.target == es[i]
  }

  /** The timers held by a list of entries, in order. */
  ghost function Timers(es: seq<Entry>): (ts: seq<Timer?>)
    reads es
    ensures |ts| == |es| && forall i :: 0 <= i < |es| ==> ts[i] == es[i].timer
  {
    seq(|es|, i reads es requires 0 <= i < |es| => es[i].timer)
  }

  /** What updateTable may assume of the decoded update: its entries are
      distinct objects with no timer. */
  ghost predicate UpdateEntries(ue: seq<Entry>)
    reads ue`timer
  {
    Distinct(ue) && forall j :: 0 <= j < |ue| ==> ue[j].timer == null
  }

  /** The bookkeeping of updateTable's loop over the update `ue`, as lists:
      when the table grows by at most the update entry at position m, the
      later update entries are still outside it, the entries `e0` it started
      with stay in front, and whatever follows them is an update entry. */
  lemma PendingStep(ue: seq<Entry>, m: nat, es0: seq<Entry>, es: seq<Entry>, e0: seq<Entry>)
    requires m < |ue| && Distinct(ue)
    requires forall j :: m <= j < |ue| ==> ue[j] !in es0
    requires es == es0 || es == es0 + [ue[m]]
    requires |e0| <= |es0| && (forall j :: 0 <= j < |e0| ==> es0[j] == e0[j])
    requires forall j :: |e0| <= j < |es0| ==> es0[j] in ue
    ensures forall j :: m + 1 <= j < |ue| ==> ue[j] !in es
    ensures |e0| <= |es| && (forall j :: 0 <= j < |e0| ==> es[j] == e0[j])
    ensures forall j :: |e0| <= j < |es| ==> es[j] in ue
  {
  }

  /** A pending timer of `s0` can only stop being pending by being one of
      the timers `held` whose cancellation is allowed; if each of those in
      `s0` stays pending, all of `s0` does. */
  lemma PendingKept(held: seq<Timer?>, s0: set<Timer>, before: set<Timer>, after: set<Timer>)
    requires s0 <= before
    requires forall t :: t in before && t !in after ==> t in held
    requires forall j :: 0 <= j < |held| && held[j] != null && held[j] in s0 ==> held[j] in after
    ensures s0 <= after
  {
    forall t | t in s0
      ensures t in after
    {
      if t in held {
        var j :| 0 <= j < |held| && held[j] == t;
      }
    }
  }

  lemma PrefixOfPrefix<T>(a: seq<T>, b: seq<T>, c: seq<T>)
    requires |a| <= |b| && b[..|a|] == a && |b| <= |c| && c[..|b|] == b
    ensures |a| <= |c| && c[..|a|] == a
  {
    assert c[..|a|] == c[..|b|][..|a|];
  }

  /** A sequence that starts with `a` is `a` followed by the rest. */
  lemma SplitAfter<T>(a: seq<T>, c: seq<T>)
    requires |a| <= |c| && c[..|a|] == a
    ensures c == a + c[|a|..]
    ensures forall j :: 0 <= j < |c| - |a| ==> c[|a|..][j] == c[|a| + j]
  {
    assert c == c[..|a|] + c[|a|..];
  }

  class RipRouter {
    /** The update's entries are neither table entries nor neighbor records. */
    ghost predicate Apart(ue: seq<Entry>)
      reads this`neighbors, table`entries
    {
      forall j :: 0 <= j < |ue| ==> ue[j] !in table.entries && ue[j] !in neighbors
    }

    const localHost: Addr
    const table: RoutingTable
    /** The backup records addNeighbor keeps, separate objects from the
        table's entries. */
    var neighbors: seq<Entry>
    /** Every datagram sent so far, oldest first. */
    var outbox: seq<Datagram>
    /** The timers whose task is still pending: created and neither cancelled
        nor run. */
    var scheduled: set<Timer>

    /** No entry object occurs twice in the table, the neighbor records are
        not table entries, and each timer belongs to the entry holding it. */
    ghost predicate Valid()
      reads this`neighbors, table`entries, table.entries`timer
    {
      && Distinct(table.entries)
      && (forall n :: n in neighbors ==> n !in table.entries)
      && OwnTimers(table.entries)
    }

    /** The local address is a parameter: the host lookup is not modelled. */
    constructor (localHost: Addr)
      ensures Valid() && fresh(table)
      ensures this.localHost == localHost && table.entries == [] && neighbors == []
      ensures outbox == [] && scheduled == {}
    {
      this.localHost := localHost;
      table := new RoutingTable();
      neighbors := [];
      outbox := [];
      scheduled := {};
    }

    /** The entry holds the timer it held, still pending iff it was. */
    twostate predicate TimerKept(e: Entry)
      reads this, e
    {
      e.timer == old(e.timer) && (e.timer != null ==> (e.timer in scheduled <==> e.timer in old(scheduled)))
    }

    /** The entry holds a pending timer of kind `k`, created since the old
        state for this entry. */
    twostate predicate Armed(new e: Entry, new k: TimerKind)
      reads this`scheduled, e`timer
    {
      e.timer != null && fresh(e.timer) && e.timer.kind == k && e.timer.target == e && e.timer in scheduled
    }

    /** resetTimer's effect on one entry: a selected entry's timer is
        cancelled and replaced by a new pending expiration timer; any other
        entry keeps its timer as it was. */
    twostate predicate ResetDone(e: Entry, selected: bool)
      reads this, e
    {
      if selected then Armed(e, Expiration) && (old(e.timer) != null ==> old(e.timer) !in scheduled)
      else TimerKept(e)
    }

    /** Where resetTimer(sender) is followed by steps that keep every
        entry's timer: an entry for the sender holds a new pending expiration
        timer, and any other entry keeps its timer as it was. */
    twostate predicate Rearmed(e: Entry, sender: Addr)
      reads this, e
    {
      if old(e.route.destination) == sender then Armed(e, Expiration) else TimerKept(e)
    }

    /** Rearmed for every entry of `es`. */
    twostate predicate AllRearmed(es: seq<Entry>, sender: Addr)
      reads this, es
    {
      forall j {:trigger Rearmed(es[j], sender)} :: 0 <= j < |es| ==> Rearmed(es[j], sender)
    }

    /** The entry list `es0` is still at the front of `es`, and any entry
        after it is fresh or one of `ue`. */
    twostate predicate Extended(es0: seq<Entry>, new es: seq<Entry>, new ue: seq<Entry>)
    {
      && |es0| <= |es| && es[..|es0|] == es0
      && forall j :: |es0| <= j < |es| ==> fresh(es[j]) || es[j] in ue
    }

    /** The body of resetTimer for one entry: the timer it holds, if any, is
        cancelled, and a new expiration timer is scheduled for it. */
    method Rearm(entry: Entry)
      modifies entry`timer, this`scheduled
      ensures Armed(entry, Expiration) && entry.route == old(entry.route)
      ensures scheduled == old(scheduled) - (if old(entry.timer) == null then {} else {old(entry.timer)}) + {entry.timer}
    {
      if entry.timer != null {
        scheduled := scheduled - {entry.timer};  // Timer.cancel
      }
      var t := new Timer(Expiration, entry);
      entry.timer := t;
      scheduled := scheduled + {t};
    }

    /** `neighbors.add(backup)` for a record that is not a table entry. */
    method AddRecord(backup: Entry)
      requires Valid() && backup !in table.entries
      modifies this`neighbors
      ensures Valid()
      ensures neighbors == old(neighbors) + [backup]
      ensures Rows(neighbors) == old(Rows(neighbors)) + [backup.route]
    {
      RowsSnoc(neighbors, backup);
      neighbors := neighbors + [backup];
    }

    /** `routingTable.addEntry(entry)` for an entry that is neither in the
        table nor a neighbor record, and holds no timer. */
    method AddTableEntry(entry: Entry)
      requires Valid() && entry !in table.entries && entry !in neighbors && entry.timer == null
      modifies table`entries
      ensures Valid()
      ensures table.entries == old(table.entries) + [entry]
      ensures Rows(table.entries) == old(Rows(table.entries)) + [entry.route]
    {
      RowsSnoc(table.entries, entry);
      DistinctSnoc(table.entries, entry);
      table.AddEntry(entry);
    }

    /** addNeighbor: a directly connected route (next hop = destination) in
        the table, and an equal but separate record in the neighbor list. */
    method AddNeighbor(afi: bv16, tag: bv16, destination: Addr, mask: Addr, metric: Int32)
      requires Valid()
      modifies this`neighbors, table`entries
      ensures Valid() && outbox == old(outbox)
      ensures Rows(table.entries)
           == old(Rows(table.entries)) + [Route(afi, tag, destination, mask, destination, metric, false)]
      ensures Rows(neighbors)
           == old(Rows(neighbors)) + [Route(afi, tag, destination, mask, destination, metric, false)]
      ensures table.entries == old(table.entries) + [table.entries[|old(table.entries)|]]
      ensures neighbors == old(neighbors) + [neighbors[|old(neighbors)|]]
      ensures fresh(table.entries[|old(table.entries)|]) && table.entries[|old(table.entries)|].timer == null
      ensures fresh(neighbors[|old(neighbors)|]) && neighbors[|old(neighbors)|] != table.entries[|old(table.entries)|]
    {
      var entry := new Entry(afi, tag, destination, mask, destination, metric);
      var backup := new Entry(afi, tag, destination, mask, destination, metric);
      AddRecord(backup);
      AddTableEntry(entry);
    }

    /** isNeighbor: some neighbor record has this destination. */
    method IsNeighbor(hostAddress: Addr) returns (b: bool)
      ensures b == HasDestination(Rows(neighbors), hostAddress)
    {
      var i := 0;
      while i < |neighbors|
        invariant 0 <= i <= |neighbors|
        invariant forall j :: 0 <= j < i ==> neighbors[j].route.destination != hostAddress
      {
        if neighbors[i].route.destination == hostAddress {
          assert Rows(neighbors)[i].destination == hostAddress;
          return true;
        }
        i := i + 1;
      }
      return false;
    }

    /** sendUpdateTo: one datagram to `receiver`, encoded for it. */
    method SendUpdateTo(command: bv8, receiver: Addr, port: int)
      modifies this`outbox
      ensures outbox == old(outbox) + [Datagram(receiver, port, Packet(command, Rows(table.entries), receiver))]
    {
      var buf := table.CreatePacket(command, receiver);
      outbox := outbox + [Datagram(receiver, port, buf)];
    }

    /** sendUpdate: one datagram to every neighbor, on port 520. */
    method SendUpdate(command: bv8)
      modifies this`outbox
      ensures outbox == old(outbox) + Broadcast(command, Rows(table.entries), Destinations(Rows(neighbors)))
    {
      ghost var receivers := Destinations(Rows(neighbors));
      var i := 0;
      while i < |neighbors|
        invariant 0 <= i <= |neighbors|
        invariant outbox == old(outbox) + Broadcast(command, Rows(table.entries), receivers[..i])
      {
        SendUpdateTo(command, neighbors[i].route.destination, PORT);
        assert Broadcast(command, Rows(table.entries), receivers[..i + 1])
            == Broadcast(command, Rows(table.entries), receivers[..i])
              + [Datagram(receivers[i], PORT, Packet(command, Rows(table.entries), receivers[i]))];
        i := i + 1;
      }
      assert receivers[..i] == receivers;
    }

    /** Every timer pending now but not in `s0` is held by one of the
        entries `es` and is none of the timers `held0` they held before. */
    ghost predicate NewTimersHeld(es: seq<Entry>, s0: set<Timer>, held0: seq<Timer?>)
      reads this`scheduled, es
    {
      forall t :: t in scheduled && t !in s0 ==> t in Timers(es) && t !in held0
    }

    /** resetTimer's step for the entry at position i. */
    method ResetAt(es: seq<Entry>, i: nat, hostAddress: Addr, isHost: bool,
                   ghost s0: set<Timer>, ghost held0: seq<Timer?>)
      requires i < |es| && OwnTimers(es) && Distinct(es)
      requires NewTimersHeld(es, s0, held0) && i < |held0| && es[i].timer == held0[i]
      modifies es`timer, this`scheduled
      ensures NewTimersHeld(es, s0, held0)
      ensures OwnTimers(es)
      ensures ResetDone(es[i], es[i].route.destination == hostAddress && isHost)
      ensures forall j :: 0 <= j < |es| && j != i ==> TimerKept(es[j])
      ensures forall t :: t in scheduled ==> t in old(scheduled) || fresh(t)
      ensures forall t :: t in old(scheduled) && t !in scheduled ==> t == old(es[i].timer)
    {
      var entry := es[i];
      if isHost && entry.route.destination == hostAddress {
        Rearm(entry);
      }
    }

    /** resetTimer: every table entry for `hostAddress`, if that is a
        neighbor, gets a new expiration timer; the one it held is cancelled.
        Every other entry keeps its timer untouched. */
    method ResetTimer(hostAddress: Addr)
      requires Valid()
      modifies table.entries`timer, this`scheduled
      ensures Valid()
      ensures Rows(table.entries) == old(Rows(table.entries))
      ensures forall j :: 0 <= j < |table.entries| ==>
        ResetDone(table.entries[j], table.entries[j].route.destination == hostAddress && old(HasDestination(Rows(neighbors), hostAddress)))
      ensures forall t :: t in old(scheduled) && t !in scheduled ==> t in old(Timers(table.entries))
      ensures forall t :: t in scheduled && t !in old(scheduled) ==> t in Timers(table.entries)
    {
      var es := table.entries;
      ghost var held := Timers(es);
      // isNeighbor reads only the neighbor list, which this loop leaves alone,
      // and it is asked only about entries whose destination is hostAddress.
      var isHost := IsNeighbor(hostAddress);
      var i := 0;
      while i < |es|
        invariant 0 <= i <= |es|
        invariant Valid()
        invariant forall j :: 0 <= j < i ==> ResetDone(es[j], es[j].route.destination == hostAddress && isHost)
        invariant forall j :: i <= j < |es| ==> TimerKept(es[j])
        invariant forall t :: t in old(scheduled) && t !in scheduled ==> t in held
        invariant NewTimersHeld(es, old(scheduled), held)
      {
        assert held[i] == es[i].timer;
        label Step:
        ResetAt(es, i, hostAddress, isHost, old(scheduled), held);
        forall j | 0 <= j < i
          ensures ResetDone(es[j], es[j].route.destination == hostAddress && isHost)
        {
          assert TimerKept@Step(es[j]);
        }
        i := i + 1;
      }
      RowsUnchanged(es);
    }

    /** configureDeletionClock's effect on one entry, its flag and metric
        read from `r`: with the flag up and at INF it holds a new pending
        deletion timer, the timer it held being left as it was (pending iff
        it was); with the flag up and below INF, a deletion timer it holds is
        cancelled and stays its timer. Any other entry keeps its timer,
        pending iff it was. */
    twostate predicate ClockDoneFor(e: Entry, r: Route)
      reads this`scheduled, e`timer
    {
      if r.changed && r.metric == INF then
        Armed(e, Deletion)
        && (old(e.timer) != null ==> (old(e.timer) in scheduled <==> old(e.timer) in old(scheduled)))
      else if r.changed && e.timer != null && e.timer.kind == Deletion && r.metric < INF then
        e.timer == old(e.timer) && e.timer !in scheduled
      else
        e.timer == old(e.timer) && (e.timer != null ==> (e.timer in scheduled <==> e.timer in old(scheduled)))
    }

    /** configureDeletionClock's effect on one entry, read from its own value. */
    twostate predicate ClockDone(e: Entry)
      reads this, e
    {
      ClockDoneFor(e, e.route)
    }

    /** configureDeletionClock's step for the entry at position i. */
    method ClockAt(es: seq<Entry>, i: nat, ghost s0: set<Timer>, ghost held0: seq<Timer?>)
      requires i < |es| && OwnTimers(es) && Distinct(es)
      requires NewTimersHeld(es, s0, held0) && i < |held0| && es[i].timer == held0[i]
      modifies es`timer, this`scheduled
      ensures NewTimersHeld(es, s0, held0)
      ensures OwnTimers(es)
      ensures ClockDone(es[i])
      ensures forall j :: 0 <= j < |es| && j != i ==> TimerKept(es[j])
      ensures forall t :: t in scheduled ==> t in old(scheduled) || fresh(t)
      ensures forall t :: t in old(scheduled) && t !in scheduled ==> t == old(es[i].timer)
    {
      var entry := es[i];
      if entry.route.changed && entry.route.metric == INF {
        var t := new Timer(Deletion, entry);
        entry.timer := t;  // the timer it held is not cancelled
        scheduled := scheduled + {t};
      } else if entry.route.changed && entry.timer != null && entry.timer.kind == Deletion && entry.route.metric < INF {
        scheduled := scheduled - {entry.timer};  // Timer.cancel
      }
    }

    method ConfigureDeletionClock()
      requires Valid()
      modifies table.entries`timer, this`scheduled
      ensures Valid()
      ensures Rows(table.entries) == old(Rows(table.entries))
      ensures forall j :: 0 <= j < |table.entries| ==> ClockDone(table.entries[j])
      ensures forall t :: t in old(scheduled) && t !in scheduled ==> t in old(Timers(table.entries))
      ensures forall t :: t in scheduled && t !in old(scheduled) ==> t in Timers(table.entries)
    {
      var es := table.entries;
      ghost var held := Timers(es);
      var i := 0;
      while i < |es|
        invariant 0 <= i <= |es|
        invariant Valid()
        invariant forall j :: 0 <= j < i ==> ClockDone(es[j])
        invariant forall j :: i <= j < |es| ==> TimerKept(es[j])
        invariant forall t :: t in old(scheduled) && t !in scheduled ==> t in held
        invariant NewTimersHeld(es, old(scheduled), held)
      {
        assert held[i] == es[i].timer;
        label Step:
        ClockAt(es, i, old(scheduled), held);
        forall j | 0 <= j < i
          ensures ClockDone(es[j])
        {
          assert TimerKept@Step(es[j]);
        }
        i := i + 1;
      }
      RowsUnchanged(es);
    }

    // ---- updateTable

    /** addEntry(fields of the record `n`): a fresh entry, with no timer yet,
        at the end of the table. */
    method AppendCopy(n: Route)
      requires Valid()
      modifies table`entries
      ensures Valid()
      ensures |table.entries| == |old(table.entries)| + 1
      ensures table.entries == old(table.entries) + [table.entries[|old(table.entries)|]]
      ensures fresh(table.entries[|old(table.entries)|]) && table.entries[|old(table.entries)|].timer == null
      ensures Rows(table.entries) == old(Rows(table.entries)) + [n.(changed := false)]
    {
      ghost var es := table.entries;
      assert Rows(es) == old(Rows(table.entries));
      table.AddNewEntry(n.afi, n.tag, n.destination, n.mask, n.nextHop, n.metric);
      RowsSnoc(es, table.entries[|es|]);
      DistinctSnoc(es, table.entries[|es|]);
    }

    /** `neighbor.routeChangeFlag = true` on a neighbor record, which is not
        a table entry. */
    method RaiseRecordFlag(neighbor: Entry)
      requires Valid() && neighbor in neighbors
      modifies neighbor`route
      ensures Valid() && Rows(table.entries) == old(Rows(table.entries))
      ensures neighbor.route == old(neighbor.route).(changed := true)
      ensures HasDestination(Rows(neighbors), neighbor.route.destination)
    {
      neighbor.route := neighbor.route.(changed := true);
      RowsUnchanged(table.entries);
      ghost var k :| 0 <= k < |neighbors| && neighbors[k] == neighbor;
      assert Rows(neighbors)[k].destination == neighbor.route.destination;
    }

    /** The first two statements of a resurrection turn, for the record
        `neighbor`: addEntry with its fields, then its own change flag. */
    method CopyRecord(neighbor: Entry)
      requires Valid() && neighbor in neighbors
      modifies table`entries, neighbor`route
      ensures Valid()
      ensures |table.entries| == |old(table.entries)| + 1
      ensures table.entries == old(table.entries) + [table.entries[|old(table.entries)|]]
      ensures fresh(table.entries[|old(table.entries)|]) && table.entries[|old(table.entries)|].timer == null
      ensures Rows(table.entries) == old(Rows(table.entries)) + [old(neighbor.route).(changed := false)]
      ensures neighbor.route == old(neighbor.route).(changed := true)
      ensures HasDestination(Rows(neighbors), neighbor.route.destination)
    {
      AppendCopy(neighbor.route);
      RaiseRecordFlag(neighbor);
    }

    /** One turn of the resurrection loop, for a neighbor record of `sender`:
        a fresh entry with the record's fields, the record's own change flag
        raised (not the new entry's), and resetTimer(sender). */
    method Revive(neighbor: Entry, sender: Addr)
      requires Valid() && neighbor in neighbors && neighbor.route.destination == sender
      modifies table`entries, neighbor`route, table.entries`timer, this`scheduled
      ensures Valid()
      ensures |table.entries| == |old(table.entries)| + 1
      ensures table.entries == old(table.entries) + [table.entries[|old(table.entries)|]]
      ensures fresh(table.entries[|old(table.entries)|]) && Armed(table.entries[|old(table.entries)|], Expiration)
      ensures Rows(table.entries) == old(Rows(table.entries)) + [old(neighbor.route).(changed := false)]
      ensures neighbor.route == old(neighbor.route).(changed := true)
      ensures forall j :: 0 <= j < |old(table.entries)| ==>
        ResetDone(table.entries[j], table.entries[j].route.destination == sender)
      ensures forall t :: t in old(scheduled) && t !in scheduled ==> t in old(Timers(table.entries))
    {
      ghost var held := Timers(table.entries);
      CopyRecord(neighbor);
      assert Timers(table.entries) == held + [null];
      ResetTimer(neighbor.route.destination);
    }

    /** The entry holds a pending timer of kind `k`. */
    predicate Pending(e: Entry, k: TimerKind)
      reads this`scheduled, e`timer
    {
      e.timer != null && e.timer.kind == k && e.timer in scheduled
    }

    /** The state of the resurrection loop after i records: the table is
        `rows0` (the entries `e0`, whose timers were `t0`, with pending set
        `s0`) followed by copies of the records for `sender` among the first
        i, each with a pending expiration timer; the records are the original
        `recs` with the flag raised on those for `sender` seen so far (a
        record occurring twice may have it up early). */
    ghost predicate ReviveInv(ns: seq<Entry>, recs: seq<Route>, rows0: seq<Route>, e0: seq<Entry>,
                              t0: seq<Timer?>, s0: set<Timer>, i: nat, sender: Addr)
      reads this, table, table.entries, ns
    {
      && i <= |ns| == |recs| && neighbors == ns && Valid() && !HasDestination(rows0, sender)
      && Rows(table.entries) == rows0 + Copies(recs[..i], sender)
      && (forall j :: 0 <= j < |ns| ==> ns[j].route.(changed := false) == recs[j].(changed := false))
      && (forall j :: 0 <= j < |ns| && recs[j].destination != sender ==> ns[j].route == recs[j])
      && (forall j :: 0 <= j < i && recs[j].destination == sender ==> ns[j].route.changed)
      && |e0| == |rows0| == |t0| <= |table.entries|
      && (forall j :: 0 <= j < |e0| ==> table.entries[j] == e0[j])
      && (forall j :: 0 <= j < |e0| ==>
            e0[j].timer == t0[j] && (t0[j] != null ==> (t0[j] in scheduled <==> t0[j] in s0)))
      && CopiesPending(|e0|, s0)
    }

    /** The entries from position n on hold pending expiration timers that
        were not pending in `s0`, and every timer of `s0` is still pending. */
    ghost predicate CopiesPending(n: nat, s0: set<Timer>)
      reads this`scheduled, table`entries, table.entries`timer
    {
      && (forall j :: n <= j < |table.entries| ==>
            Pending(table.entries[j], Expiration) && table.entries[j].timer !in s0)
      && s0 <= scheduled
    }

    /** A turn of the resurrection loop for a record of `sender`. */
    method ReviveStep(ns: seq<Entry>, i: nat, sender: Addr, ghost recs: seq<Route>, ghost rows0: seq<Route>,
                      ghost e0: seq<Entry>, ghost t0: seq<Timer?>, ghost s0: set<Timer>)
      requires ReviveInv(ns, recs, rows0, e0, t0, s0, i, sender) && i < |ns| && recs[i].destination == sender
      modifies table`entries, ns`route, table.entries`timer, this`scheduled
      ensures ReviveInv(ns, recs, rows0, e0, t0, s0, i + 1, sender)
      ensures |table.entries| == |old(table.entries)| + 1
      ensures table.entries == old(table.entries) + [table.entries[|old(table.entries)|]]
      ensures fresh(table.entries[|old(table.entries)|])
    {
      ghost var held := Timers(table.entries);
      ghost var before := scheduled;
      Revive(ns[i], sender);
      CopiesSnoc(recs, i, sender);
      forall j | 0 <= j < |e0|
        ensures e0[j].timer == t0[j] && (t0[j] != null ==> (t0[j] in scheduled <==> t0[j] in s0))
      {
        assert old(Rows(table.entries))[j] == rows0[j];
        assert ResetDone(table.entries[j], false);
      }
      forall j | |e0| <= j < |table.entries|
        ensures Pending(table.entries[j], Expiration) && table.entries[j].timer !in s0
      {
        if j < |old(table.entries)| {
          assert ResetDone(table.entries[j], table.entries[j].route.destination == sender);
        }
      }
      forall j | 0 <= j < |held| && held[j] != null && held[j] in s0
        ensures held[j] in scheduled
      {
        assert j < |e0| && held[j] == t0[j];
      }
      PendingKept(held, s0, before, scheduled);
    }

    /** One turn of the resurrection loop. */
    method ReviveAt(ns: seq<Entry>, i: nat, sender: Addr, ghost recs: seq<Route>, ghost rows0: seq<Route>,
                    ghost e0: seq<Entry>, ghost t0: seq<Timer?>, ghost s0: set<Timer>)
      requires ReviveInv(ns, recs, rows0, e0, t0, s0, i, sender) && i < |ns|
      modifies table`entries, ns`route, table.entries`timer, this`scheduled
      ensures ReviveInv(ns, recs, rows0, e0, t0, s0, i + 1, sender)
      ensures table.entries == old(table.entries)
        || (|table.entries| == |old(table.entries)| + 1
            && table.entries == old(table.entries) + [table.entries[|old(table.entries)|]]
            && fresh(table.entries[|old(table.entries)|]))
    {
      if sender == ns[i].route.destination {
        ReviveStep(ns, i, sender, recs, rows0, e0, t0, s0);
      } else {
        CopiesSnoc(recs, i, sender);
      }
    }

    /** The resurrection loop's state before the first record. */
    lemma ReviveStart(ns: seq<Entry>, recs: seq<Route>, rows0: seq<Route>, e0: seq<Entry>,
                      t0: seq<Timer?>, s0: set<Timer>, sender: Addr)
      requires Valid() && ns == neighbors && recs == Rows(ns) && e0 == table.entries && rows0 == Rows(e0)
      requires !HasDestination(rows0, sender) && s0 == scheduled
      requires |t0| == |e0| && forall j :: 0 <= j < |e0| ==> t0[j] == e0[j].timer
      ensures ReviveInv(ns, recs, rows0, e0, t0, s0, 0, sender)
    {
      assert recs[..0] == [];
    }

    /** The resurrection loop's state after the last record, read against
        the state before the loop. */
    twostate lemma ReviveDone(new ns: seq<Entry>, new recs: seq<Route>, new rows0: seq<Route>, new e0: seq<Entry>,
                              new t0: seq<Timer?>, new s0: set<Timer>, new sender: Addr)
      requires ReviveInv(ns, recs, rows0, e0, t0, s0, |ns|, sender)
      requires recs == old(Rows(neighbors)) && e0 == old(table.entries) && rows0 == old(Rows(table.entries))
      requires |t0| == |e0| && (forall j :: 0 <= j < |e0| ==> t0[j] == old(e0[j].timer)) && s0 == old(scheduled)
      ensures Rows(table.entries) == old(Rows(table.entries)) + Copies(old(Rows(neighbors)), sender)
      ensures Rows(neighbors) == FlagRecords(old(Rows(neighbors)), sender)
      ensures |old(table.entries)| <= |table.entries| && table.entries[..|old(table.entries)|] == old(table.entries)
      ensures forall j :: 0 <= j < |old(table.entries)| ==> TimerKept(table.entries[j])
      ensures forall j :: |old(table.entries)| <= j < |table.entries| ==>
        Pending(table.entries[j], Expiration) && table.entries[j].timer !in old(scheduled)
      ensures old(scheduled) <= scheduled
    {
      assert recs[..|ns|] == recs;
      FlaggedRecords(Rows(ns), recs, sender);
      assert table.entries[..|e0|] == e0;
    }

    /** The loop of updateTable for a sender without an entry: one fresh
        entry per neighbor record for the sender, copied from the record, and
        the record's own flag raised. The entries already there keep their
        timers; each copy ends up with a pending expiration timer. */
    method ReviveNeighbors(sender: Addr)
      requires Valid() && !HasDestination(Rows(table.entries), sender)
      modifies table`entries, neighbors`route, table.entries`timer, this`scheduled
      ensures Valid()
      ensures Rows(table.entries) == old(Rows(table.entries)) + Copies(old(Rows(neighbors)), sender)
      ensures Rows(neighbors) == FlagRecords(old(Rows(neighbors)), sender)
      ensures |old(table.entries)| <= |table.entries| && table.entries[..|old(table.entries)|] == old(table.entries)
      ensures forall j :: 0 <= j < |old(table.entries)| ==> TimerKept(table.entries[j])
      ensures forall j :: |old(table.entries)| <= j < |table.entries| ==>
        Pending(table.entries[j], Expiration) && fresh(table.entries[j])
        && table.entries[j].timer !in old(scheduled)
      ensures old(scheduled) <= scheduled
    {
      var ns := neighbors;
      ghost var recs := Rows(ns);
      ghost var rows0 := Rows(table.entries);
      ghost var e0 := table.entries;
      ghost var t0 := Timers(e0);
      ghost var s0 := scheduled;
      ReviveStart(ns, recs, rows0, e0, t0, s0, sender);
      var i := 0;
      while i < |ns|
        invariant 0 <= i <= |ns| && ReviveInv(ns, recs, rows0, e0, t0, s0, i, sender)
        invariant forall j :: |e0| <= j < |table.entries| ==> fresh(table.entries[j])
      {
        ReviveAt(ns, i, sender, recs, rows0, e0, t0, s0);
        i := i + 1;
      }
      ReviveDone(ns, recs, rows0, e0, t0, s0, sender);
    }

    /** The entry for a destination not yet in the table: when reachable,
        the update entry itself is redirected through the sender at metric
        `sum`, flagged, and appended (no clamp is applied here). */
    method Learn(u: Entry, sender: Addr, sum: Int32)
      requires Valid() && u !in table.entries && u !in neighbors && u.timer == null
      modifies table`entries, u`route
      ensures Valid()
      ensures old(u.route.metric) < INF ==>
        table.entries == old(table.entries) + [u]
        && Rows(table.entries) == old(Rows(table.entries)) + [old(u.route).(metric := sum, nextHop := sender, changed := true)]
      ensures old(u.route.metric) >= INF ==> table.entries == old(table.entries) && u.route == old(u.route)
    {
      if u.route.metric < INF {
        u.route := u.route.(metric := sum, nextHop := sender, changed := true);
        AddTableEntry(u);
      }
    }

    /** The entry already in the table at position k receives the offer. */
    method RelaxEntry(thisEntry: Entry, ghost k: nat, sum: Int32, sender: Addr)
      requires Valid() && k < |table.entries| && table.entries[k] == thisEntry
      modifies thisEntry`route
      ensures Valid()
      ensures Rows(table.entries) == old(Rows(table.entries))[k := Relax(old(thisEntry.route), sum, sender)]
    {
      if thisEntry.route.nextHop == sender {
        thisEntry.route := thisEntry.route.(changed := true, metric := sum);
      } else if thisEntry.route.metric > sum {
        thisEntry.route := thisEntry.route.(nextHop := sender, metric := sum, changed := true);
      }
      if thisEntry.route.metric > INF {
        thisEntry.route := thisEntry.route.(metric := INF);
      }
      RowsUpdated(table.entries, k);
    }

    /** The offer of the update entry `u` at cost `sum`, once the lookups are
        done: `thisEntry` is the table's first entry for u's destination, if
        any. */
    method Offer(u: Entry, thisEntry: Entry?, sender: Addr, sum: Int32, ghost rows: seq<Route>, ghost ur: Route)
      requires Valid() && rows == Rows(table.entries) && ur == u.route
      requires u !in table.entries && u !in neighbors && u.timer == null
      requires thisEntry == null <==> !HasDestination(rows, ur.destination)
      requires thisEntry != null ==> thisEntry == table.entries[FirstIndex(rows, ur.destination)]
      modifies table`entries, table.entries`route, u`route
      ensures Valid()
      ensures thisEntry == null ==>
        Rows(table.entries)
          == if ur.metric < INF then rows + [ur.(metric := sum, nextHop := sender, changed := true)] else rows
      ensures thisEntry != null ==>
        Rows(table.entries)
          == rows[FirstIndex(rows, ur.destination) := Relax(rows[FirstIndex(rows, ur.destination)], sum, sender)]
      ensures table.entries == old(table.entries) || table.entries == old(table.entries) + [u]
    {
      if thisEntry == null {
        Learn(u, sender, sum);
      } else {
        RelaxEntry(thisEntry, FirstIndex(rows, ur.destination), sum, sender);
      }
    }

    /** The rest of the iteration once `thisEntry` is known and the
        destination is not the local host: the sender's cost is looked up and
        the offer made. */
    method OfferFrom(u: Entry, thisEntry: Entry?, sender: Addr, ghost rows: seq<Route>, ghost ur: Route)
      requires Valid() && rows == Rows(table.entries) && ur == u.route
      requires HasDestination(rows, sender) && ur.destination != localHost
      requires u !in table.entries && u !in neighbors && u.timer == null
      requires thisEntry == null <==> !HasDestination(rows, ur.destination)
      requires thisEntry != null ==> thisEntry == table.entries[FirstIndex(rows, ur.destination)]
      modifies table`entries, table.entries`route, u`route
      ensures Valid()
      ensures Rows(table.entries) == MergeOne(rows, ur, sender, localHost)
      ensures table.entries == old(table.entries) || table.entries == old(table.entries) + [u]
    {
      var senderEntry := table.GetEntryByDestination(sender);
      var costToNextHop := senderEntry.route.metric;
      MergeOneOffer(rows, ur, sender, localHost, Add32(u.route.metric, costToNextHop));
      Offer(u, thisEntry, sender, Add32(u.route.metric, costToNextHop), rows, ur);
    }

    /** One iteration of updateTable's loop over the update, for the update
        entry `u`: the stored table moves by exactly one MergeOne step, and a
        new destination is learned by inserting `u` itself. */
    method MergeEntry(u: Entry, sender: Addr)
      requires Valid() && HasDestination(Rows(table.entries), sender)
      requires u !in table.entries && u !in neighbors && u.timer == null
      modifies table`entries, table.entries`route, u`route
      ensures Valid()
      ensures Rows(table.entries) == MergeOne(old(Rows(table.entries)), old(u.route), sender, localHost)
      ensures table.entries == old(table.entries) || table.entries == old(table.entries) + [u]
    {
      ghost var rows, ur := Rows(table.entries), u.route;
      var thisEntry := table.GetEntryByDestination(u.route.destination);
      if u.route.destination == localHost {
        assert MergeOne(rows, ur, sender, localHost) == rows;
        return;  // the destination is this router
      }
      OfferFrom(u, thisEntry, sender, rows, ur);
    }

    /** The state of updateTable's loop over the update after m entries:
        the table holds the first m merged into `rows0` (the table before the
        loop, whose entries `e0` stay in front), the update entries from m on
        are untouched and outside the table, and every entry added is an
        update entry. */
    ghost predicate MergeInv(ue: seq<Entry>, us: seq<Route>, rows0: seq<Route>, e0: seq<Entry>, m: nat, sender: Addr)
      reads this, table, table.entries, ue
    {
      && m <= |ue| == |us| && HasDestination(rows0, sender)
      && Valid() && UpdateEntries(ue)
      && Rows(table.entries) == MergeAll(rows0, us[..m], sender, localHost)
      && (forall j :: m <= j < |ue| ==> ue[j].route == us[j] && ue[j] !in table.entries && ue[j] !in neighbors)
      && |e0| <= |table.entries| && (forall j :: 0 <= j < |e0| ==> table.entries[j] == e0[j])
      && (forall j :: |e0| <= j < |table.entries| ==> table.entries[j] in ue)
    }

    /** MergeEntry on the update entry at position m: the update entries
        after it are neither touched nor added. */
    method MergeEntryAt(ue: seq<Entry>, m: nat, u: Entry, sender: Addr)
      requires Valid() && HasDestination(Rows(table.entries), sender)
      requires m < |ue| && ue[m] == u && UpdateEntries(ue)
      requires forall j :: m <= j < |ue| ==> ue[j] !in table.entries && ue[j] !in neighbors
      modifies table`entries, table.entries`route, u`route
      ensures Valid()
      ensures Rows(table.entries) == MergeOne(old(Rows(table.entries)), old(u.route), sender, localHost)
      ensures forall j :: m < j < |ue| ==> ue[j].route == old(ue[j].route)
      ensures table.entries == old(table.entries) || table.entries == old(table.entries) + [u]
    {
      MergeEntry(u, sender);
    }

    /** One turn of the loop over the update. */
    method MergeAt(ue: seq<Entry>, m: nat, u: Entry, sender: Addr,
                   ghost us: seq<Route>, ghost rows0: seq<Route>, ghost e0: seq<Entry>)
      requires MergeInv(ue, us, rows0, e0, m, sender) && m < |ue| && ue[m] == u
      modifies table`entries, table.entries`route, u`route
      ensures MergeInv(ue, us, rows0, e0, m + 1, sender)
    {
      ghost var es0 := table.entries;
      MergeEntryAt(ue, m, u, sender);
      PendingStep(ue, m, es0, table.entries, e0);
      MergeAllSnoc(rows0, us, m, sender, localHost);
    }

    /** updateTable's loop over the update: its entries merged in order. An
        update entry that is learned becomes a table entry itself. */
    method MergeUpdate(update: RoutingTable, sender: Addr)
      requires Valid() && HasDestination(Rows(table.entries), sender) && update != table
      requires UpdateEntries(update.entries) && Apart(update.entries)
      modifies table`entries, table.entries`route, update.entries`route
      ensures Valid()
      ensures Rows(table.entries) == MergeAll(old(Rows(table.entries)), old(Rows(update.entries)), sender, localHost)
      ensures |old(table.entries)| <= |table.entries| && table.entries[..|old(table.entries)|] == old(table.entries)
      ensures forall j :: |old(table.entries)| <= j < |table.entries| ==> table.entries[j] in update.entries
      ensures Rows(neighbors) == old(Rows(neighbors))
    {
      var ue := update.entries;
      ghost var us := Rows(ue);
      ghost var rows0 := Rows(table.entries);
      ghost var e0 := table.entries;
      var m := 0;
      while m < |ue|
        invariant 0 <= m <= |ue| && MergeInv(ue, us, rows0, e0, m, sender)
      {
        MergeAt(ue, m, ue[m], sender, us, rows0, e0);
        m := m + 1;
      }
      assert us[..m] == us;
      assert table.entries[..|e0|] == e0;
      forall j | 0 <= j < |neighbors|
        ensures neighbors[j].route == old(neighbors[j].route)
      {
        assert neighbors[j] in neighbors;
      }
      RowsUnchanged(neighbors);
    }

    /** The loop of updateTable for a sender that has an entry (at position
        k): the metric of the last neighbor record for the sender, if any,
        replaces the entry's metric; nothing else changes. */
    method ConfigureSender(senderEntry: Entry, ghost k: nat, sender: Addr)
      requires Valid() && k < |table.entries| && table.entries[k] == senderEntry
      modifies senderEntry`route
      ensures Valid()
      ensures Rows(table.entries)
           == old(Rows(table.entries))[k := old(senderEntry.route).(metric :=
                ConfiguredMetric(old(Rows(neighbors)), sender, old(senderEntry.route.metric)))]
      ensures Rows(neighbors) == old(Rows(neighbors))
    {
      var ns := neighbors;
      ghost var recs := Rows(ns);
      ghost var r0 := senderEntry.route;
      forall j | 0 <= j < |ns|
        ensures ns[j] != senderEntry
      {
        assert ns[j] in neighbors;
      }
      var i := 0;
      while i < |ns|
        invariant 0 <= i <= |ns|
        invariant forall j :: 0 <= j < |ns| ==> ns[j].route == recs[j]
        invariant senderEntry.route == r0.(metric := ConfiguredMetric(recs[..i], sender, r0.metric))
      {
        if sender == ns[i].route.destination {
          senderEntry.route := senderEntry.route.(metric := ns[i].route.metric);
        }
        ConfiguredMetricSnoc(recs, i, sender, r0.metric);
        i := i + 1;
      }
      assert recs[..i] == recs;
      RowsUpdated(table.entries, k);
      RowsUnchanged(ns);
    }
    /** An update kept apart from the table and the neighbor records stays
        so while the table grows by entries holding a timer: an update entry
        holds none. */
    twostate lemma StillApart(ue: seq<Entry>)
      requires old(Apart(ue)) && old(UpdateEntries(ue)) && neighbors == old(neighbors)
      requires forall j :: 0 <= j < |ue| ==> ue[j].timer == old(ue[j].timer) && ue[j].route == old(ue[j].route)
      requires |old(table.entries)| <= |table.entries| && table.entries[..|old(table.entries)|] == old(table.entries)
      requires forall j :: |old(table.entries)| <= j < |table.entries| ==> Pending(table.entries[j], Expiration)
      ensures Apart(ue) && UpdateEntries(ue) && Rows(ue) == old(Rows(ue))
    {
      forall j | 0 <= j < |ue|
        ensures ue[j] !in table.entries
      {
        assert ue[j] !in old(table.entries);
        forall i | 0 <= i < |table.entries|
          ensures table.entries[i] != ue[j]
        {
          if i < |old(table.entries)| {
            assert table.entries[..|old(table.entries)|][i] == table.entries[i];
          } else {
            assert Pending(table.entries[i], Expiration);
          }
        }
      }
      RowsUnchanged(ue);
    }

    /** The entry holds the timer `t`, pending iff it is in `s`. */
    ghost predicate Holds(e: Entry, t: Timer?, s: set<Timer>)
      reads this`scheduled, e`timer
    {
      e.timer == t && (t != null ==> (t in scheduled <==> t in s))
    }

    /** The state between the two halves of updateTable: the table holds
        `mid` and the records `nr`; the update `ue` (holding `us`) is still
        apart from both; the entries `e0` stay in front with their timers
        `t0`, pending as in `s0`; every entry after them holds a pending
        expiration timer that was not in `s0`, and all of `s0` is pending. */
    ghost predicate Restored(ue: seq<Entry>, mid: seq<Route>, us: seq<Route>, nr: seq<Route>,
                             e0: seq<Entry>, t0: seq<Timer?>, s0: set<Timer>)
      reads this, table, table.entries, ue, neighbors
    {
      && Valid() && Apart(ue) && UpdateEntries(ue)
      && Rows(table.entries) == mid && Rows(ue) == us && Rows(neighbors) == nr
      && |e0| == |t0| <= |table.entries| && table.entries[..|e0|] == e0
      && (forall j :: 0 <= j < |e0| ==> Holds(e0[j], t0[j], s0))
      && CopiesPending(|e0|, s0)
    }

    /** The first half of updateTable for a sender without an entry. */
    method ReviveSender(sender: Addr, ghost ue: seq<Entry>, ghost e0: seq<Entry>, ghost t0: seq<Timer?>, ghost s0: set<Timer>)
      requires Valid() && Apart(ue) && UpdateEntries(ue) && !HasDestination(Rows(table.entries), sender)
      requires e0 == table.entries && s0 == scheduled
      requires |t0| == |e0| && forall j :: 0 <= j < |e0| ==> t0[j] == e0[j].timer
      modifies table`entries, table.entries`route, neighbors`route, table.entries`timer, this`scheduled
      ensures Restored(ue, old(Rows(table.entries)) + Copies(old(Rows(neighbors)), sender), old(Rows(ue)),
                       FlagRecords(old(Rows(neighbors)), sender), e0, t0, s0)
      ensures forall j :: |e0| <= j < |table.entries| ==> fresh(table.entries[j])
    {
      ReviveNeighbors(sender);
      StillApart(ue);
    }

    /** The first half of updateTable for a sender with an entry. */
    method ConfigureSenderEntry(senderEntry: Entry, sender: Addr, ghost ue: seq<Entry>, ghost e0: seq<Entry>,
                                ghost t0: seq<Timer?>, ghost s0: set<Timer>)
      requires Valid() && Apart(ue) && UpdateEntries(ue) && HasDestination(Rows(table.entries), sender)
      requires senderEntry == table.entries[FirstIndex(Rows(table.entries), sender)]
      requires e0 == table.entries && s0 == scheduled
      requires |t0| == |e0| && forall j :: 0 <= j < |e0| ==> t0[j] == e0[j].timer
      modifies senderEntry`route
      ensures Restored(ue, Resurrect(old(Rows(table.entries)), old(Rows(neighbors)), sender), old(Rows(ue)),
                       old(Rows(neighbors)), e0, t0, s0)
      ensures |table.entries| == |e0|
    {
      ConfigureSender(senderEntry, FirstIndex(Rows(table.entries), sender), sender);
      assert table.entries[..|e0|] == e0;
      StillApart(ue);
    }

    /** The first half of updateTable: the sender's entry is recreated from
        its neighbor records when missing, and otherwise given the configured
        metric. The entries `e0` already there keep their timers `t0`, pending
        as in `s0`, and an update `ue` kept apart from the table stays
        apart. */
    method RestoreSender(sender: Addr, ghost ue: seq<Entry>, ghost e0: seq<Entry>, ghost t0: seq<Timer?>, ghost s0: set<Timer>)
      returns (ghost added: seq<Entry>)
      requires Valid() && Apart(ue) && UpdateEntries(ue)
      requires e0 == table.entries && s0 == scheduled
      requires |t0| == |e0| && forall j :: 0 <= j < |e0| ==> t0[j] == e0[j].timer
      modifies table`entries, table.entries`route, neighbors`route, table.entries`timer, this`scheduled
      ensures Restored(ue, Resurrect(old(Rows(table.entries)), old(Rows(neighbors)), sender), old(Rows(ue)),
                       ResurrectRecords(old(Rows(table.entries)), old(Rows(neighbors)), sender), e0, t0, s0)
      ensures table.entries == e0 + added
      ensures forall j :: 0 <= j < |added| ==> fresh(added[j])
    {
      var senderEntry := table.GetEntryByDestination(sender);
      if senderEntry == null {
        ReviveSender(sender, ue, e0, t0, s0);
      } else {
        ConfigureSenderEntry(senderEntry, sender, ue, e0, t0, s0);
      }
      SplitAfter(e0, table.entries);
      added := table.entries[|e0|..];
      forall j | 0 <= j < |added|
        ensures fresh(added[j])
      {
        assert added[j] == table.entries[|e0| + j];
      }
    }

    /** updateTable's loop over the update, after the first half left the
        table at `mid` and the neighbor records at `nr`: the timers and the
        records are left as they were. */
    method MergeRestored(update: RoutingTable, sender: Addr, ghost mid: seq<Route>, ghost us: seq<Route>,
                         ghost nr: seq<Route>, ghost e0: seq<Entry>, ghost t0: seq<Timer?>, ghost s0: set<Timer>,
                         ghost added: seq<Entry>)
      requires Restored(update.entries, mid, us, nr, e0, t0, s0)
      requires HasDestination(mid, sender) && update != table && table.entries == e0 + added
      modifies table`entries, e0`route, added`route, update.entries`route
      ensures Valid()
      ensures Rows(table.entries) == MergeAll(mid, us, sender, localHost)
      ensures Rows(neighbors) == nr
      ensures |e0| <= |table.entries| && table.entries[..|e0|] == e0
      ensures forall j :: 0 <= j < |e0| ==> Holds(e0[j], t0[j], s0)
      ensures |old(table.entries)| <= |table.entries| && table.entries[..|old(table.entries)|] == old(table.entries)
      ensures forall j :: |old(table.entries)| <= j < |table.entries| ==> table.entries[j] in update.entries
      ensures s0 <= scheduled
      ensures forall j :: |e0| <= j < |table.entries| ==> table.entries[j].timer !in s0
    {
      ghost var e1 := table.entries;
      MergeUpdate(update, sender);
      PrefixOfPrefix(e0, e1, table.entries);
      forall j | |e0| <= j < |table.entries|
        ensures table.entries[j].timer !in s0
      {
        if j < |e1| {
          assert table.entries[..|e1|][j] == e1[j];
        } else {
          var k :| 0 <= k < |update.entries| && update.entries[k] == table.entries[j];
        }
      }
    }

    /** Entries added by the two halves of updateTable: those of the first
        half are new objects, those of the second are update entries. */
    twostate lemma FreshOrUpdate(new e1: seq<Entry>, new added: seq<Entry>, new ue: seq<Entry>)
      requires |added| <= |e1| && forall j :: 0 <= j < |added| ==> fresh(added[j])
      requires |e1| <= |table.entries| && table.entries[..|e1|] == e1
      requires forall j :: |e1| <= j < |table.entries| ==> table.entries[j] in ue
      requires e1[|e1| - |added|..] == added
      ensures forall j :: |e1| - |added| <= j < |table.entries| ==> fresh(table.entries[j]) || table.entries[j] in ue
    {
      forall j | |e1| - |added| <= j < |e1|
        ensures fresh(table.entries[j])
      {
        assert table.entries[..|e1|][j] == e1[j] == added[j - (|e1| - |added|)];
      }
    }

    /** Entries that hold the timers they held, each pending iff it was. */
    twostate lemma TimersKept(e0: seq<Entry>, new t0: seq<Timer?>, new s0: set<Timer>)
      requires |t0| == |e0| && s0 == old(scheduled)
      requires forall j :: 0 <= j < |e0| ==> t0[j] == old(e0[j].timer) && Holds(e0[j], t0[j], s0)
      ensures forall j :: 0 <= j < |e0| ==> TimerKept(e0[j])
    {
      forall j | 0 <= j < |e0|
        ensures TimerKept(e0[j])
      {
        assert Holds(e0[j], t0[j], s0);
      }
    }

    /** updateTable: the first half, then the update merged into its result.
        Update entries that are learned become table entries themselves. */
    method UpdateTable(update: RoutingTable, sender: Addr)
      requires Valid() && HasDestination(Rows(neighbors), sender) && update != table
      requires UpdateEntries(update.entries) && Apart(update.entries)
      modifies table`entries, table.entries`route, neighbors`route, table.entries`timer, this`scheduled
      modifies update.entries`route
      ensures Valid()
      ensures |old(table.entries)| <= |table.entries| && table.entries[..|old(table.entries)|] == old(table.entries)
      ensures HasDestination(Resurrect(old(Rows(table.entries)), old(Rows(neighbors)), sender), sender)
      ensures Rows(table.entries)
           == MergeAll(Resurrect(old(Rows(table.entries)), old(Rows(neighbors)), sender),
                       old(Rows(update.entries)), sender, localHost)
      ensures Rows(neighbors) == ResurrectRecords(old(Rows(table.entries)), old(Rows(neighbors)), sender)
      ensures forall j :: 0 <= j < |old(table.entries)| ==> TimerKept(old(table.entries)[j])
      ensures forall j :: |old(table.entries)| <= j < |table.entries| ==>
        fresh(table.entries[j]) || table.entries[j] in update.entries
      ensures old(scheduled) <= scheduled
      ensures forall j :: |old(table.entries)| <= j < |table.entries| ==> table.entries[j].timer !in old(scheduled)
    {
      ghost var rows0, recs, us, e0 := Rows(table.entries), Rows(neighbors), Rows(update.entries), table.entries;
      ghost var t0 := Timers(e0);
      ghost var s0 := scheduled;
      ghost var mid := Resurrect(rows0, recs, sender);
      ghost var nr := ResurrectRecords(rows0, recs, sender);
      ResurrectHasSender(rows0, recs, sender);
      ghost var added := RestoreSender(sender, update.entries, e0, t0, s0);
      ghost var e1 := table.entries;
      MergeRestored(update, sender, mid, us, nr, e0, t0, s0, added);
      FreshOrUpdate(e1, added, update.entries);
      TimersKept(e0, t0, s0);
    }

    /** readUpdate's answer to a request, the table holding `rows`. */
    method AnswerRequest(command: bv8, sender: Addr, senderPort: int, ghost rows: seq<Route>)
      requires rows == Rows(table.entries)
      modifies this`outbox
      ensures outbox == old(outbox) + RequestReply(command, rows, sender, senderPort)
    {
      if command == REQUEST {
        SendUpdateTo(RESPONSE, sender, senderPort);
      }
    }

    /** readUpdate's triggered update, the table holding `rows` and the
        neighbor records the destinations `receivers`. */
    method TriggerUpdate(command: bv8, ghost rows: seq<Route>, ghost receivers: seq<Addr>)
      requires rows == Rows(table.entries) && receivers == Destinations(Rows(neighbors))
      modifies this`outbox
      ensures outbox == old(outbox) + TriggeredUpdate(command, rows, receivers)
    {
      if command == REQUEST || command == RESPONSE {
        var updated := table.IsUpdated();
        if updated {
          SendUpdate(RESPONSE);
        }
      }
    }

    /** readUpdate's replies, sent from the merged table. */
    method Respond(command: bv8, sender: Addr, senderPort: int, ghost rows: seq<Route>, ghost receivers: seq<Addr>)
      requires rows == Rows(table.entries) && receivers == Destinations(Rows(neighbors))
      modifies this`outbox
      ensures outbox == old(outbox) + Replies(command, rows, sender, senderPort, receivers)
    {
      AnswerRequest(command, sender, senderPort, rows);
      TriggerUpdate(command, rows, receivers);
      assert outbox == old(outbox) + (RequestReply(command, rows, sender, senderPort) + TriggeredUpdate(command, rows, receivers));
    }

    /** configureDeletionClock's outcome, read against the merged table
        `merged` whose flags it consults: a flagged entry at INF holds a new
        pending deletion timer; a flagged entry below INF that holds a
        deletion timer has it cancelled. */
    twostate predicate DeletionClockSet(new merged: seq<Route>)
      reads this`scheduled, table`entries, table.entries`timer
    {
      && |table.entries| == |merged|
      && (forall j :: 0 <= j < |merged| && merged[j].changed && merged[j].metric == INF ==>
            Armed(table.entries[j], Deletion))
      && (forall j :: 0 <= j < |merged| && merged[j].changed && merged[j].metric < INF ==>
            table.entries[j].timer != null && table.entries[j].timer.kind == Deletion ==>
            table.entries[j].timer !in scheduled)
    }

    twostate lemma DeletionClockFrom(merged: seq<Route>)
      requires table.entries == old(table.entries) && |table.entries| == |merged|
      requires forall j :: 0 <= j < |merged| ==> ClockDoneFor(table.entries[j], merged[j])
      ensures DeletionClockSet(merged)
    {
    }

    /** configureDeletionClock, read against the table's rows `merged`: each
        entry's timer as ClockDoneFor says from its merged value, and only
        timers held by table entries are cancelled. */
    method ConfigureClock(ghost merged: seq<Route>)
      requires Valid() && Rows(table.entries) == merged
      modifies table.entries`timer, this`scheduled
      ensures Valid() && Rows(table.entries) == merged
      ensures forall j :: 0 <= j < |merged| ==> ClockDoneFor(table.entries[j], merged[j])
      ensures forall t :: t in old(scheduled) && t !in scheduled ==> t in old(Timers(table.entries))
      ensures DeletionClockSet(merged)
    {
      ConfigureDeletionClock();
      RowsUnchanged(table.entries);
      forall j | 0 <= j < |merged|
        ensures ClockDoneFor(table.entries[j], merged[j])
      {
        assert ClockDone(table.entries[j]) && table.entries[j].route == merged[j];
      }
      DeletionClockFrom(merged);
    }

    /** resetRoutingChangeFlags on the table: the neighbor records, which are
        not table entries, keep their flags. */
    method ClearChangeFlags()
      requires Valid()
      modifies table.entries`route
      ensures Valid() && Rows(table.entries) == ClearFlags(old(Rows(table.entries)))
      ensures Rows(neighbors) == old(Rows(neighbors))
    {
      table.ResetRoutingChangeFlags();
      forall j | 0 <= j < |neighbors|
        ensures neighbors[j].route == old(neighbors[j].route)
      {
        assert neighbors[j] in neighbors;
      }
      RowsUnchanged(neighbors);
    }

    /** The end of readUpdate: deletion timers are configured from the flags
        of the merged table `merged`, then every flag is lowered. */
    method Settle(ghost merged: seq<Route>)
      requires Valid() && Rows(table.entries) == merged
      modifies table.entries`timer, this`scheduled, table.entries`route
      ensures Valid() && Rows(table.entries) == ClearFlags(merged)
      ensures Rows(neighbors) == old(Rows(neighbors))
      ensures forall j :: 0 <= j < |merged| ==> ClockDoneFor(table.entries[j], merged[j])
      ensures forall t :: t in old(scheduled) && t !in scheduled ==> t in old(Timers(table.entries))
      ensures DeletionClockSet(merged)
    {
      ConfigureClock(merged);
      RowsUnchanged(neighbors);
      ClearChangeFlags();
    }

    /** Every timer of `o` is pending and held by no table entry. */
    ghost predicate Orphans(o: set<Timer>)
      reads this`scheduled, table`entries, table.entries`timer
    {
      o <= scheduled && forall j :: 0 <= j < |table.entries| ==> table.entries[j].timer !in o
    }

    /** The pending timers no table entry holds. */
    ghost function Unheld(): (o: set<Timer>)
      reads this`scheduled, table`entries, table.entries
      ensures Orphans(o)
      ensures forall t :: t in scheduled && t !in Timers(table.entries) ==> t in o
    {
      set t | t in scheduled && t !in Timers(table.entries)
    }

    /** Timers that no table entry holds stay pending when only timers
        held by table entries are cancelled and each entry holds the timer
        it held or one that was not pending before. */
    twostate lemma OrphansKept(o: set<Timer>)
      requires old(Orphans(o))
      requires forall t :: t in old(scheduled) && t !in scheduled ==> t in old(Timers(table.entries))
      requires forall j :: 0 <= j < |table.entries| ==>
        table.entries[j].timer !in old(scheduled)
        || (j < |old(table.entries)| && table.entries[j] == old(table.entries[j])
            && table.entries[j].timer == old(table.entries[j].timer))
      ensures Orphans(o)
    {
      PendingKept(old(Timers(table.entries)), o, old(scheduled), scheduled);
    }

    /** Timers that no table entry holds stay orphans across updateTable,
        which keeps the old entries in front with their timers and adds
        entries holding no timer pending before. */
    twostate lemma OrphansAfterUpdate(o: set<Timer>)
      requires old(Orphans(o)) && old(scheduled) <= scheduled
      requires |old(table.entries)| <= |table.entries| && table.entries[..|old(table.entries)|] == old(table.entries)
      requires forall j :: 0 <= j < |old(table.entries)| ==> TimerKept(old(table.entries)[j])
      requires forall j :: |old(table.entries)| <= j < |table.entries| ==> table.entries[j].timer !in old(scheduled)
      ensures Orphans(o)
    {
      forall j | 0 <= j < |table.entries|
        ensures table.entries[j].timer !in o
      {
        if j < |old(table.entries)| {
          assert table.entries[..|old(table.entries)|][j] == old(table.entries)[j];
          assert TimerKept(old(table.entries)[j]);
        }
      }
    }

    /** The rest of readUpdate once the table holds `merged` and the
        neighbor records `nr`: the replies, then the deletion clock and the
        flags. */
    method RespondAndSettle(command: bv8, sender: Addr, senderPort: int, ghost merged: seq<Route>, ghost nr: seq<Route>,
                            ghost e0: seq<Entry>, ghost added: seq<Entry>, ghost o: set<Timer>)
      requires Valid() && Rows(table.entries) == merged && Rows(neighbors) == nr && table.entries == e0 + added
      requires Orphans(o)
      modifies this`outbox, this`scheduled, e0`timer, e0`route, added`timer, added`route
      ensures Valid() && Rows(table.entries) == ClearFlags(merged) && Rows(neighbors) == nr
      ensures outbox == old(outbox) + Replies(command, merged, sender, senderPort, Destinations(nr))
      ensures DeletionClockSet(merged)
      ensures Orphans(o)
    {
      Respond(command, sender, senderPort, merged, Destinations(nr));
      Settle(merged);
      forall j | 0 <= j < |table.entries|
        ensures table.entries[j].timer !in old(scheduled) || table.entries[j].timer == old(table.entries[j].timer)
      {
        assert ClockDoneFor(table.entries[j], merged[j]);
      }
      OrphansKept(o);
    }

    /** resetTimer(sender) at the start of readUpdate: the entries, their
        rows, the records and the update `ue` kept apart from both stay as
        they were, and timers no entry holds stay pending. */
    method ResetForUpdate(sender: Addr, ghost recs: seq<Route>, ghost ue: seq<Entry>, ghost o: set<Timer>, ghost es: seq<Entry>)
      requires Valid() && recs == Rows(neighbors) && Orphans(o) && es == table.entries && HasDestination(recs, sender)
      requires UpdateEntries(ue) && Apart(ue)
      modifies table.entries`timer, this`scheduled
      ensures Valid() && Rows(table.entries) == old(Rows(table.entries)) && Orphans(o)
      ensures Rows(neighbors) == recs && UpdateEntries(ue) && Apart(ue) && Rows(ue) == old(Rows(ue))
      ensures table.entries == es && forall j :: 0 <= j < |es| ==> Rearmed(es[j], sender)
    {
      ResetTimer(sender);
      RowsUnchanged(neighbors);
      RowsUnchanged(ue);
      forall j | 0 <= j < |table.entries|
        ensures table.entries[j].timer !in old(scheduled) || table.entries[j].timer == old(table.entries[j].timer)
      {
        assert ResetDone(table.entries[j], table.entries[j].route.destination == sender && HasDestination(recs, sender));
      }
      forall j | 0 <= j < |es|
        ensures Rearmed(es[j], sender)
      {
        assert ResetDone(es[j], es[j].route.destination == sender && HasDestination(recs, sender));
      }
      OrphansKept(o);
    }

    /** updateTable after resetTimer: as UpdateTable, with the entries it
        adds returned, and a pending timer no entry holds left pending. */
    method UpdateAfterReset(update: RoutingTable, sender: Addr,
                            ghost rows0: seq<Route>, ghost recs: seq<Route>, ghost us: seq<Route>, ghost o: set<Timer>)
      returns (ghost added: seq<Entry>)
      requires Valid() && HasDestination(recs, sender) && update != table
      requires UpdateEntries(update.entries) && Apart(update.entries)
      requires rows0 == Rows(table.entries) && recs == Rows(neighbors) && us == Rows(update.entries)
      requires Orphans(o)
      modifies table`entries, table.entries`route, neighbors`route, table.entries`timer, this`scheduled
      modifies update.entries`route
      ensures Valid()
      ensures HasDestination(Resurrect(rows0, recs, sender), sender)
      ensures Rows(table.entries) == MergeAll(Resurrect(rows0, recs, sender), us, sender, localHost)
      ensures Rows(neighbors) == ResurrectRecords(rows0, recs, sender)
      ensures table.entries == old(table.entries) + added
      ensures forall j :: 0 <= j < |added| ==> fresh(added[j]) || added[j] in update.entries
      ensures forall j :: 0 <= j < |old(table.entries)| ==> TimerKept(old(table.entries)[j])
      ensures Orphans(o)
    {
      ghost var e0 := table.entries;
      UpdateTable(update, sender);
      OrphansAfterUpdate(o);
      SplitAfter(e0, table.entries);
      added := table.entries[|e0|..];
      forall j | 0 <= j < |added|
        ensures fresh(added[j]) || added[j] in update.entries
      {
        assert added[j] == table.entries[|e0| + j];
      }
    }

    /** The start of readUpdate for a neighbor, the table holding `rows0`,
        the records `recs` and the update `us`: its entries' expiration
        timers are reset, then updateTable runs. */
    method ResetAndUpdate(update: RoutingTable, sender: Addr,
                          ghost rows0: seq<Route>, ghost recs: seq<Route>, ghost us: seq<Route>, ghost o: set<Timer>)
      returns (ghost added: seq<Entry>)
      requires Valid() && HasDestination(recs, sender) && update != table
      requires UpdateEntries(update.entries) && Apart(update.entries)
      requires rows0 == Rows(table.entries) && recs == Rows(neighbors) && us == Rows(update.entries)
      requires Orphans(o)
      modifies table`entries, table.entries`route, neighbors`route, table.entries`timer, this`scheduled
      modifies update.entries`route
      ensures Valid()
      ensures HasDestination(Resurrect(rows0, recs, sender), sender)
      ensures Rows(table.entries) == MergeAll(Resurrect(rows0, recs, sender), us, sender, localHost)
      ensures Rows(neighbors) == ResurrectRecords(rows0, recs, sender)
      ensures table.entries == old(table.entries) + added
      ensures forall j :: 0 <= j < |added| ==> fresh(added[j]) || added[j] in update.entries
      ensures AllRearmed(old(table.entries), sender)
      ensures Orphans(o)
    {
      ghost var e0 := table.entries;
      ResetForUpdate(sender, recs, update.entries, o, e0);
      label Reset:
      added := UpdateAfterReset(update, sender, rows0, recs, us, o);
      forall j | 0 <= j < |e0|
        ensures Rearmed(e0[j], sender)
      {
        assert TimerKept@Reset(e0[j]);
      }
    }

    /** readUpdate for an update from a neighbor, the table holding
        `rows0`, the records `recs` and the update `us`. */
    method Handle(command: bv8, update: RoutingTable, sender: Addr, senderPort: int,
                  ghost rows0: seq<Route>, ghost recs: seq<Route>, ghost us: seq<Route>)
      requires Valid() && HasDestination(recs, sender) && update != table
      requires UpdateEntries(update.entries) && Apart(update.entries)
      requires rows0 == Rows(table.entries) && recs == Rows(neighbors) && us == Rows(update.entries)
      modifies this`outbox, table`entries, table.entries`route, neighbors`route, table.entries`timer, this`scheduled
      modifies update.entries`route, update.entries`timer
      ensures Valid()
      ensures HasDestination(Resurrect(rows0, recs, sender), sender)
      ensures Rows(table.entries) == ClearFlags(MergeAll(Resurrect(rows0, recs, sender), us, sender, localHost))
      ensures Rows(neighbors) == ResurrectRecords(rows0, recs, sender)
      ensures outbox == old(outbox) + Replies(command, MergeAll(Resurrect(rows0, recs, sender), us, sender, localHost),
                                              sender, senderPort, Destinations(Rows(neighbors)))
      ensures DeletionClockSet(MergeAll(Resurrect(rows0, recs, sender), us, sender, localHost))
      ensures forall t :: t in old(scheduled) && t !in old(Timers(table.entries)) ==> t in scheduled
      ensures Extended(old(table.entries), table.entries, update.entries)
    {
      ResurrectHasSender(rows0, recs, sender);
      ghost var merged := MergeAll(Resurrect(rows0, recs, sender), us, sender, localHost);
      ghost var nr := ResurrectRecords(rows0, recs, sender);
      ghost var e0 := table.entries;
      ghost var o := Unheld();
      ghost var added := ResetAndUpdate(update, sender, rows0, recs, us, o);
      label AfterUpdate:
      RespondAndSettle(command, sender, senderPort, merged, nr, e0, added, o);
      forall j | 0 <= j < |merged| && merged[j].changed && merged[j].metric == INF
        ensures Armed(table.entries[j], Deletion)
      {
        assert Armed@AfterUpdate(table.entries[j], Deletion);
      }
      assert o <= scheduled;
    }

    /** readUpdate: an update from a host that is not a neighbor is dropped;
        otherwise the table becomes the merged table with every flag lowered,
        the replies are sent from the merged table, and each merged entry
        whose flag was up holds a new deletion timer if at INF, and has a
        deletion timer it holds cancelled if below INF. The header holds at
        least the command byte (the listener passes the first four bytes). */
    method ReadUpdate(header: seq<bv8>, update: RoutingTable, sender: Addr, senderPort: int)
      requires |header| > 0
      requires Valid() && update != table && UpdateEntries(update.entries) && Apart(update.entries)
      modifies this`outbox, table`entries, table.entries`route, neighbors`route, table.entries`timer, this`scheduled
      modifies update.entries`route, update.entries`timer
      ensures Valid()
      ensures !old(HasDestination(Rows(neighbors), sender)) ==>
        && table.entries == old(table.entries) && Rows(table.entries) == old(Rows(table.entries))
        && Timers(table.entries) == old(Timers(table.entries))
        && Rows(neighbors) == old(Rows(neighbors))
        && outbox == old(outbox) && scheduled == old(scheduled)
      ensures old(HasDestination(Rows(neighbors), sender)) ==>
        HasDestination(Resurrect(old(Rows(table.entries)), old(Rows(neighbors)), sender), sender)
      ensures old(HasDestination(Rows(neighbors), sender)) ==>
        Rows(table.entries) == ClearFlags(MergeAll(Resurrect(old(Rows(table.entries)), old(Rows(neighbors)), sender),
                                                   old(Rows(update.entries)), sender, localHost))
      ensures old(HasDestination(Rows(neighbors), sender)) ==>
        Rows(neighbors) == ResurrectRecords(old(Rows(table.entries)), old(Rows(neighbors)), sender)
      ensures old(HasDestination(Rows(neighbors), sender)) ==>
        outbox == old(outbox) + Replies(header[0], MergeAll(Resurrect(old(Rows(table.entries)), old(Rows(neighbors)), sender),
                                                            old(Rows(update.entries)), sender, localHost),
                                        sender, senderPort, Destinations(Rows(neighbors)))
      ensures old(HasDestination(Rows(neighbors), sender)) ==>
        DeletionClockSet(MergeAll(Resurrect(old(Rows(table.entries)), old(Rows(neighbors)), sender),
                                  old(Rows(update.entries)), sender, localHost))
      ensures old(HasDestination(Rows(neighbors), sender)) ==> Extended(old(table.entries), table.entries, update.entries)
      ensures forall t :: t in old(scheduled) && t !in old(Timers(table.entries)) ==> t in scheduled
    {
      ghost var rows0, recs, us := Rows(table.entries), Rows(neighbors), Rows(update.entries);
      var isNeighbor := HasDestination(Rows(neighbors), sender);  // isNeighbor(sender), as IsNeighbor computes it
      if !isNeighbor {
        return;  // dropped: not from a neighbor
      }
      Handle(header[0], update, sender, senderPort, rows0, recs, us);
    }
  }
}
