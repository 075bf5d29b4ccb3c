/** ExpirationTimer's task, run when an entry's expiration timer fires: every
    route whose next hop is the entry's destination becomes unreachable, the
    entry is handed a new deletion timer, and a response goes to every
    neighbor. The timer thread itself is not modelled: run is an explicit
    transition taken for a pending timer. */
module ExpirationTimer {
  import opened Bytes
  import opened Routes
  import opened Wire
  import opened Table
  import opened Router

  /** The table after the loop of ExpireEntry.run: the metric of every route
      through `d` is INF; nothing else changes, and no change flag is raised. */
  function ExpireRows(rows: seq<Route>, d: Addr): (r: seq<Route>)
    ensures |r| == |rows|
  {
    seq(|rows|, i requires 0 <= i < |rows| => if rows[i].nextHop == d then rows[i].(metric := INF) else rows[i])
  }

  /** Only metrics change: each row keeps its destination, mask, next hop,
      identifiers and flag; a route through `d` is at INF and any other keeps
      its metric. */
  lemma ExpireRowsFields(rows: seq<Route>, d: Addr, i: nat)
    requires i < |rows|
    ensures ExpireRows(rows, d)[i] == rows[i].(metric := ExpireRows(rows, d)[i].metric)
    ensures rows[i].nextHop == d ==> ExpireRows(rows, d)[i].metric == INF
    ensures rows[i].nextHop != d ==> ExpireRows(rows, d)[i].metric == rows[i].metric
  {
  }

  /** Expiring twice is expiring once. */
  lemma ExpireRowsIdempotent(rows: seq<Route>, d: Addr)
    ensures ExpireRows(ExpireRows(rows, d), d) == ExpireRows(rows, d)
  {
    var once := ExpireRows(rows, d);
    assert forall i :: 0 <= i < |once| ==> once[i].nextHop == rows[i].nextHop;
  }

  /** The destinations, and so the neighbors' reply addresses and every
      lookup by destination, are untouched. */
  lemma ExpireRowsDestinations(rows: seq<Route>, d: Addr, x: Addr)
    ensures HasDestination(ExpireRows(rows, d), x) == HasDestination(rows, x)
    ensures AnyChanged(ExpireRows(rows, d)) == AnyChanged(rows)
  {
    var r := ExpireRows(rows, d);
    if HasDestination(rows, x) {
      var i :| 0 <= i < |rows| && rows[i].destination == x;
      assert r[i].destination == x;
    }
    if AnyChanged(rows) {
      var i :| 0 <= i < |rows| && rows[i].changed;
      assert r[i].changed;
    }
  }

  /** The response sent after expiry announces every route through `d` as
      unreachable, to every receiver, poisoned or not. */
  lemma ExpiredRoutesAnnouncedUnreachable(rows: seq<Route>, d: Addr, receiver: Addr, i: nat)
    requires i < |rows| && rows[i].nextHop == d
    ensures |Decode(Packet(RESPONSE, ExpireRows(rows, d), receiver))| == |rows|
    ensures Decode(Packet(RESPONSE, ExpireRows(rows, d), receiver))[i].metric == INF
  {
    var r := ExpireRows(rows, d);
    PoisonedReverse(RESPONSE, r, receiver, i);
  }

  /** One turn of the loop: the entry at position i, if routed through `d`,
      is made unreachable. */
  method ExpireAt(es: seq<Entry>, i: nat, entry: Entry, d: Addr, ghost rows0: seq<Route>)
    requires i < |es| == |rows0| && Distinct(es) && es[i] == entry
    requires forall j :: 0 <= j < |es| ==> es[j].route == (if j < i then ExpireRows(rows0, d)[j] else rows0[j])
    modifies entry`route
    ensures forall j :: 0 <= j < |es| ==> es[j].route == (if j <= i then ExpireRows(rows0, d)[j] else rows0[j])
  {
    if entry.route.nextHop == d {
      entry.route := entry.route.(metric := INF);
    }
  }

  /** The loop of ExpireEntry.run over the table. */
  method ExpireRoutes(router: RipRouter, d: Addr)
    requires router.Valid()
    modifies router.table.entries`route
    ensures router.Valid()
    ensures Rows(router.table.entries) == ExpireRows(old(Rows(router.table.entries)), d)
    ensures Rows(router.neighbors) == old(Rows(router.neighbors))
  {
    var es := router.table.entries;
    ghost var rows0 := Rows(es);
    var i := 0;
    while i < |es|
      invariant 0 <= i <= |es|
      invariant forall j :: 0 <= j < |es| ==> es[j].route == (if j < i then ExpireRows(rows0, d)[j] else rows0[j])
    {
      ExpireAt(es, i, es[i], d, rows0);
      i := i + 1;
    }
    forall j | 0 <= j < |router.neighbors|
      ensures router.neighbors[j].route == old(router.neighbors[j].route)
    {
      assert router.neighbors[j] in router.neighbors;
    }
    RowsUnchanged(router.neighbors);
  }

  /** `timeredEntry.timer = new DeletionTimer(...)` once `t` has run: the
      entry holds a new pending deletion timer; the timer it held, if any, is
      not cancelled. */
  method ArmDeletion(router: RipRouter, t: Timer)
    requires router.Valid() && t in router.scheduled
    modifies t.target`timer, router`scheduled
    ensures router.Valid()
    ensures Rows(router.table.entries) == old(Rows(router.table.entries))
    ensures Rows(router.neighbors) == old(Rows(router.neighbors))
    ensures t.target.timer != null && fresh(t.target.timer)
    ensures t.target.timer.kind == Deletion && t.target.timer.target == t.target
    ensures router.scheduled == old(router.scheduled) - {t} + {t.target.timer}
  {
    var entry := t.target;
    var deletion := new Timer(Deletion, entry);
    entry.timer := deletion;
    router.scheduled := router.scheduled - {t} + {deletion};
    RowsUnchanged(router.table.entries);
    RowsUnchanged(router.neighbors);
  }

  /** ExpireEntry.run for the pending expiration timer `t`: the routes
      through its entry's destination are set to INF; the entry's timer field
      then holds a new pending deletion timer (whatever it held is not
      cancelled); `t` has run and is no longer pending; a response goes to
      every neighbor from the expired table. */
  method ExpireEntry(router: RipRouter, t: Timer)
    requires router.Valid() && t in router.scheduled && t.kind == Expiration
    modifies router.table.entries`route, t.target`timer, router`scheduled, router`outbox
    ensures router.Valid()
    ensures Rows(router.table.entries) == ExpireRows(old(Rows(router.table.entries)), old(t.target.route.destination))
    ensures Rows(router.neighbors) == old(Rows(router.neighbors))
    ensures t.target.timer != null && fresh(t.target.timer)
    ensures t.target.timer.kind == Deletion && t.target.timer.target == t.target
    ensures router.scheduled == old(router.scheduled) - {t} + {t.target.timer}
    ensures forall j :: 0 <= j < |router.table.entries| && router.table.entries[j] != t.target ==>
      router.table.entries[j].timer == old(router.table.entries[j].timer)
    ensures router.outbox
         == old(router.outbox) + Broadcast(RESPONSE, Rows(router.table.entries), Destinations(Rows(router.neighbors)))
  {
    ExpireRoutes(router, t.target.route.destination);
    ArmDeletion(router, t);
    router.SendUpdate(RESPONSE);
  }
}
