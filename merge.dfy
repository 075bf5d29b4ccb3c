/** The distance-vector rule of RipRouter.updateTable, on the values of the
    table's entries (section 3.9.2 of RFC 2453 in spirit). The imperative
    updateTable is proved to compute exactly `MergeAll(Resurrect(...), ...)`. */
module Merge {
  import opened Bytes
  import opened Routes

  // ---- first half of updateTable: the sender's own entry

  /** The metric left in the sender's entry by the loop over the neighbor
      records: the last record for `sender` wins, none leaves `current`. */
  function ConfiguredMetric(neighbors: seq<Route>, sender: Addr, current: Int32): Int32 {
    if neighbors == [] then current
    else if neighbors[|neighbors| - 1].destination == sender then neighbors[|neighbors| - 1].metric
    else ConfiguredMetric(neighbors[..|neighbors| - 1], sender, current)
  }

  /** The entries addEntry(fields...) appends for the neighbor records of
      `sender`: copies of their fields in a fresh entry, flag lowered. */
  function Copies(neighbors: seq<Route>, sender: Addr): seq<Route> {
    if neighbors == [] then []
    else
      var last := neighbors[|neighbors| - 1];
      Copies(neighbors[..|neighbors| - 1], sender) + (if last.destination == sender then [last.(changed := false)] else [])
  }

  /** The neighbor records after a resurrection: those for `sender` have
      their change flag raised, the others are as they were. Only flags
      change, so the same neighbors are still addressed, and some flag is up
      exactly when one was already or some record is for `sender`. */
  function FlagRecords(neighbors: seq<Route>, sender: Addr): (r: seq<Route>)
    ensures |r| == |neighbors|
    ensures forall i :: 0 <= i < |neighbors| ==>
      r[i] == if neighbors[i].destination == sender then neighbors[i].(changed := true) else neighbors[i]
    ensures ClearFlags(r) == ClearFlags(neighbors)
    ensures forall d :: HasDestination(r, d) <==> HasDestination(neighbors, d)
    ensures UniqueDestinations(r) <==> UniqueDestinations(neighbors)
    ensures AnyChanged(r) <==> AnyChanged(neighbors) || HasDestination(neighbors, sender)
  {
    seq(|neighbors|, i requires 0 <= i < |neighbors| =>
      if neighbors[i].destination == sender then neighbors[i].(changed := true) else neighbors[i])
  }

  /** The loop over the records, one record further: a copy is made of it
      exactly when it is for the sender. */
  lemma CopiesSnoc(neighbors: seq<Route>, i: nat, sender: Addr)
    requires i < |neighbors|
    ensures Copies(neighbors[..i + 1], sender)
         == Copies(neighbors[..i], sender)
            + (if neighbors[i].destination == sender then [neighbors[i].(changed := false)] else [])
  {
    assert neighbors[..i + 1][..i] == neighbors[..i];
  }

  /** The loop over the records, one record further: a record for the sender
      overrides the metric chosen so far. */
  lemma ConfiguredMetricSnoc(neighbors: seq<Route>, i: nat, sender: Addr, current: Int32)
    requires i < |neighbors|
    ensures ConfiguredMetric(neighbors[..i + 1], sender, current)
         == if neighbors[i].destination == sender then neighbors[i].metric
            else ConfiguredMetric(neighbors[..i], sender, current)
  {
    assert neighbors[..i + 1][..i] == neighbors[..i];
  }

  /** A record that differs from `old` only in its change flag, and has the
      flag up, is `old` flagged; the records a resurrection loop leaves
      behind are therefore FlagRecords of the ones it found. */
  lemma FlaggedRecords(now: seq<Route>, before: seq<Route>, sender: Addr)
    requires |now| == |before|
    requires forall j :: 0 <= j < |now| ==> now[j].(changed := false) == before[j].(changed := false)
    requires forall j :: 0 <= j < |now| && before[j].destination != sender ==> now[j] == before[j]
    requires forall j :: 0 <= j < |now| && before[j].destination == sender ==> now[j].changed
    ensures now == FlagRecords(before, sender)
  {
    forall j | 0 <= j < |now|
      ensures now[j] == FlagRecords(before, sender)[j]
    {
      if before[j].destination == sender {
        assert now[j].(changed := false) == before[j].(changed := false);
      }
    }
  }

  /** A neighbor that has come back gets its entry recreated from its
      record; otherwise the sender's entry is reset to the configured metric. */
  function Resurrect(rows: seq<Route>, neighbors: seq<Route>, sender: Addr): seq<Route> {
    if HasDestination(rows, sender) then
      var k := FirstIndex(rows, sender);
      rows[k := rows[k].(metric := ConfiguredMetric(neighbors, sender, rows[k].metric))]
    else
      rows + Copies(neighbors, sender)
  }

  /** The neighbor records after the first half: flagged for `sender` when
      its entry was recreated, untouched otherwise. */
  function ResurrectRecords(rows: seq<Route>, neighbors: seq<Route>, sender: Addr): seq<Route> {
    if HasDestination(rows, sender) then neighbors else FlagRecords(neighbors, sender)
  }

  // ---- second half: merging one announced entry

  /** The stored metric of the sender's (first) entry: costToNextHop. */
  function CostTo(rows: seq<Route>, sender: Addr): Int32
    requires HasDestination(rows, sender)
  {
    rows[FirstIndex(rows, sender)].metric
  }

  /** The clamp applied to an existing entry after either branch. */
  function Clamp(r: Route): (c: Route)
    ensures c.metric <= INF
  {
    if r.metric > INF then r.(metric := INF) else r
  }

  /** An existing entry after the offer of a route through `sender` at
      metric `sum`: a route through the sender always takes the new metric
      and is flagged, another route is replaced only by a smaller metric, and
      either way the metric is then clamped to INF. */
  function Relax(e: Route, sum: Int32, sender: Addr): Route {
    var e' :=
      if e.nextHop == sender then e.(changed := true, metric := sum)
      else if e.metric > sum then e.(nextHop := sender, metric := sum, changed := true)
      else e;
    Clamp(e')
  }

  /** One iteration of updateTable's loop over the update. */
  function MergeOne(rows: seq<Route>, u: Route, sender: Addr, local: Addr): (r: seq<Route>)
    requires HasDestination(rows, sender)
    ensures |rows| <= |r| <= |rows| + 1
    ensures forall i :: 0 <= i < |rows| ==> r[i].destination == rows[i].destination
    ensures HasDestination(r, sender)
  {
    if u.destination == local then rows
    else
      var sum := Add32(u.metric, CostTo(rows, sender));
      if !HasDestination(rows, u.destination) then
        if u.metric < INF then rows + [u.(metric := sum, nextHop := sender, changed := true)] else rows
      else
        var k := FirstIndex(rows, u.destination);
        rows[k := Relax(rows[k], sum, sender)]
  }

  /** The whole loop: the update's entries merged in wire order, each one
      seeing the table left by the ones before it. */
  function MergeAll(rows: seq<Route>, update: seq<Route>, sender: Addr, local: Addr): (r: seq<Route>)
    requires HasDestination(rows, sender)
    ensures |rows| <= |r|
    ensures forall i :: 0 <= i < |rows| ==> r[i].destination == rows[i].destination
    ensures HasDestination(r, sender)
  {
    if update == [] then rows
    else
      var front := MergeAll(rows, update[..|update| - 1], sender, local);
      MergeOne(front, update[|update| - 1], sender, local)
  }

  /** One more update entry is one more MergeOne step. */
  lemma MergeAllSnoc(rows: seq<Route>, update: seq<Route>, m: nat, sender: Addr, local: Addr)
    requires HasDestination(rows, sender) && m < |update|
    ensures MergeAll(rows, update[..m + 1], sender, local)
         == MergeOne(MergeAll(rows, update[..m], sender, local), update[m], sender, local)
  {
    assert update[..m + 1][..m] == update[..m];
  }

  /** MergeOne for an entry that is not for the local host, by whether its
      destination is already known. */
  lemma MergeOneOffer(rows: seq<Route>, u: Route, sender: Addr, local: Addr, sum: Int32)
    requires HasDestination(rows, sender) && u.destination != local
    requires sum == Add32(u.metric, CostTo(rows, sender))
    ensures !HasDestination(rows, u.destination) ==>
      MergeOne(rows, u, sender, local)
        == if u.metric < INF then rows + [u.(metric := sum, nextHop := sender, changed := true)] else rows
    ensures HasDestination(rows, u.destination) ==>
      MergeOne(rows, u, sender, local)
        == rows[FirstIndex(rows, u.destination) := Relax(rows[FirstIndex(rows, u.destination)], sum, sender)]
  {
  }

  // ---- the merge rule, case by case

  /** Self-route suppression: an entry for the local host changes nothing. */
  lemma MergeOneSkipsLocal(rows: seq<Route>, u: Route, sender: Addr, local: Addr)
    requires HasDestination(rows, sender) && u.destination == local
    ensures MergeOne(rows, u, sender, local) == rows
  {
  }

  /** An unknown destination is learned only when announced reachable, at
      announced + cost through the sender, flagged; it is not clamped. */
  lemma MergeOneUnknown(rows: seq<Route>, u: Route, sender: Addr, local: Addr)
    requires HasDestination(rows, sender) && u.destination != local
    requires !HasDestination(rows, u.destination)
    ensures u.metric < INF ==>
      MergeOne(rows, u, sender, local)
        == rows + [u.(metric := Add32(u.metric, CostTo(rows, sender)), nextHop := sender, changed := true)]
    ensures u.metric >= INF ==> MergeOne(rows, u, sender, local) == rows
  {
  }

  /** A route through the sender always takes the sender's new figure,
      worse or better, capped at INF, and is flagged. */
  lemma MergeOneViaSender(rows: seq<Route>, u: Route, sender: Addr, local: Addr)
    requires HasDestination(rows, sender) && u.destination != local
    requires HasDestination(rows, u.destination)
    requires rows[FirstIndex(rows, u.destination)].nextHop == sender
    ensures var k := FirstIndex(rows, u.destination);
            var sum := Add32(u.metric, CostTo(rows, sender));
            MergeOne(rows, u, sender, local)
              == rows[k := rows[k].(metric := if sum > INF then INF else sum, changed := true)]
  {
  }

  /** A route through another router is a Bellman-Ford relaxation: the
      sender's offer replaces it only when strictly cheaper; refused offers
      leave the entry alone apart from the cap at INF. */
  lemma MergeOneOtherRoute(rows: seq<Route>, u: Route, sender: Addr, local: Addr)
    requires HasDestination(rows, sender) && u.destination != local
    requires HasDestination(rows, u.destination)
    requires rows[FirstIndex(rows, u.destination)].nextHop != sender
    ensures var k := FirstIndex(rows, u.destination);
            var sum := Add32(u.metric, CostTo(rows, sender));
            var best := if sum < rows[k].metric then sum else rows[k].metric;
            var r := MergeOne(rows, u, sender, local);
            && r == rows[k := r[k]]
            && r[k].metric == (if best > INF then INF else best)
            && r[k].nextHop == (if sum < rows[k].metric then sender else rows[k].nextHop)
            && r[k].changed == (rows[k].changed || sum < rows[k].metric)
            && (r[k].afi, r[k].tag, r[k].destination, r[k].mask)
               == (rows[k].afi, rows[k].tag, rows[k].destination, rows[k].mask)
  {
    var k := FirstIndex(rows, u.destination);
    var sum := Add32(u.metric, CostTo(rows, sender));
    var e := rows[k];
    var e' := if e.metric > sum then e.(nextHop := sender, metric := sum, changed := true) else e;
    assert MergeOne(rows, u, sender, local) == rows[k := Clamp(e')];
  }

  // ---- properties of a whole update

  lemma MergeOneLeavesLocalAlone(rows: seq<Route>, u: Route, sender: Addr, local: Addr)
    requires HasDestination(rows, sender)
    ensures forall i :: 0 <= i < |rows| && rows[i].destination == local ==>
      MergeOne(rows, u, sender, local)[i] == rows[i]
    ensures !HasDestination(rows, local) ==> !HasDestination(MergeOne(rows, u, sender, local), local)
  {
    if u.destination != local && HasDestination(rows, u.destination) {
      var k := FirstIndex(rows, u.destination);
      assert rows[k].destination != local;
    }
  }

  /** No entry for the local host is ever created, and an existing one is
      never modified, whatever the update announces. */
  lemma {:induction false} MergeAllLeavesLocalAlone(rows: seq<Route>, update: seq<Route>, sender: Addr, local: Addr)
    requires HasDestination(rows, sender)
    ensures forall i :: 0 <= i < |rows| && rows[i].destination == local ==>
      MergeAll(rows, update, sender, local)[i] == rows[i]
    ensures !HasDestination(rows, local) ==> !HasDestination(MergeAll(rows, update, sender, local), local)
  {
    if update != [] {
      var front := MergeAll(rows, update[..|update| - 1], sender, local);
      MergeAllLeavesLocalAlone(rows, update[..|update| - 1], sender, local);
      MergeOneLeavesLocalAlone(front, update[|update| - 1], sender, local);
      assert MergeAll(rows, update, sender, local) == MergeOne(front, update[|update| - 1], sender, local);
    }
  }

  lemma MergeOneKeepsUnique(rows: seq<Route>, u: Route, sender: Addr, local: Addr)
    requires HasDestination(rows, sender) && UniqueDestinations(rows)
    ensures UniqueDestinations(MergeOne(rows, u, sender, local))
  {
  }

  /** "Exactly one entry per destination" survives any update. */
  lemma {:induction false} MergeAllKeepsUnique(rows: seq<Route>, update: seq<Route>, sender: Addr, local: Addr)
    requires HasDestination(rows, sender) && UniqueDestinations(rows)
    ensures UniqueDestinations(MergeAll(rows, update, sender, local))
  {
    if update != [] {
      MergeAllKeepsUnique(rows, update[..|update| - 1], sender, local);
      MergeOneKeepsUnique(MergeAll(rows, update[..|update| - 1], sender, local), update[|update| - 1], sender, local);
    }
  }

  lemma MergeOneStepFacts(rows: seq<Route>, u: Route, sender: Addr, local: Addr, i: nat)
    requires HasDestination(rows, sender) && i < |rows|
    ensures rows[i].metric <= INF ==> MergeOne(rows, u, sender, local)[i].metric <= INF
    ensures rows[i].changed ==> MergeOne(rows, u, sender, local)[i].changed
    ensures rows[i].nextHop == sender ==> MergeOne(rows, u, sender, local)[i].nextHop == sender
  {
  }

  /** Entries that were within [.., INF] stay there, flags are never lowered,
      and a route through the sender stays a route through the sender. */
  lemma {:induction false} MergeAllStepFacts(rows: seq<Route>, update: seq<Route>, sender: Addr, local: Addr, i: nat)
    requires HasDestination(rows, sender) && i < |rows|
    ensures rows[i].metric <= INF ==> MergeAll(rows, update, sender, local)[i].metric <= INF
    ensures rows[i].changed ==> MergeAll(rows, update, sender, local)[i].changed
    ensures rows[i].nextHop == sender ==> MergeAll(rows, update, sender, local)[i].nextHop == sender
  {
    if update != [] {
      MergeAllStepFacts(rows, update[..|update| - 1], sender, local, i);
      MergeOneStepFacts(MergeAll(rows, update[..|update| - 1], sender, local), update[|update| - 1], sender, local, i);
    }
  }

  lemma MergeOneAppended(rows: seq<Route>, u: Route, sender: Addr, local: Addr)
    requires HasDestination(rows, sender)
    ensures |MergeOne(rows, u, sender, local)| > |rows| ==>
      var e := MergeOne(rows, u, sender, local)[|rows|];
      e.nextHop == sender && e.changed && e.destination == u.destination && u.destination != local
  {
  }

  /** Rows from position `n` on are flagged routes through the sender to
      destinations `update` announces, none of them the local host. */
  predicate AddedRoutes(n: nat, r: seq<Route>, update: seq<Route>, sender: Addr, local: Addr) {
    forall i :: n <= i < |r| ==>
      && r[i].nextHop == sender && r[i].changed && r[i].destination != local
      && HasDestination(update, r[i].destination)
  }

  lemma MergeOneAdds(rows: seq<Route>, update: seq<Route>, n: nat, sender: Addr, local: Addr)
    requires HasDestination(rows, sender) && update != [] && n <= |rows|
    requires AddedRoutes(n, rows, update[..|update| - 1], sender, local)
    ensures AddedRoutes(n, MergeOne(rows, update[|update| - 1], sender, local), update, sender, local)
  {
    var u := update[|update| - 1];
    var r := MergeOne(rows, u, sender, local);
    forall i | n <= i < |r|
      ensures r[i].nextHop == sender && r[i].changed && r[i].destination != local
      ensures HasDestination(update, r[i].destination)
    {
      if i < |rows| {
        MergeOneStepFacts(rows, u, sender, local, i);
        var j :| 0 <= j < |update| - 1 && update[..|update| - 1][j].destination == rows[i].destination;
        assert update[j].destination == r[i].destination;
      } else {
        MergeOneAppended(rows, u, sender, local);
        assert update[|update| - 1].destination == r[i].destination;
      }
    }
  }

  /** Every entry the update adds is a flagged route through the sender to a
      destination the update announced and that is not the local host. */
  lemma {:induction false} MergeAllAppended(rows: seq<Route>, update: seq<Route>, sender: Addr, local: Addr)
    requires HasDestination(rows, sender)
    ensures AddedRoutes(|rows|, MergeAll(rows, update, sender, local), update, sender, local)
  {
    if update != [] {
      var front := update[..|update| - 1];
      MergeAllAppended(rows, front, sender, local);
      MergeOneAdds(MergeAll(rows, front, sender, local), update, |rows|, sender, local);
    }
  }

  // ---- the first half, for neighbor records without repeats

  lemma {:induction false} SingleNeighborRecord(neighbors: seq<Route>, sender: Addr, m: nat, current: Int32)
    requires UniqueDestinations(neighbors) && m < |neighbors| && neighbors[m].destination == sender
    ensures Copies(neighbors, sender) == [neighbors[m].(changed := false)]
    ensures ConfiguredMetric(neighbors, sender, current) == neighbors[m].metric
  {
    var front := neighbors[..|neighbors| - 1];
    if m < |neighbors| - 1 {
      assert neighbors[|neighbors| - 1].destination != sender;
      SingleNeighborRecord(front, sender, m, current);
    } else {
      NoNeighborRecord(front, sender, current);
    }
  }

  lemma {:induction false} NoNeighborRecord(neighbors: seq<Route>, sender: Addr, current: Int32)
    requires !HasDestination(neighbors, sender)
    ensures Copies(neighbors, sender) == []
    ensures ConfiguredMetric(neighbors, sender, current) == current
  {
    if neighbors != [] {
      NoNeighborRecord(neighbors[..|neighbors| - 1], sender, current);
    }
  }

  /** With one record per neighbor: a sender without an entry gets exactly one
      new entry, a copy of its record; otherwise the sender's entry alone has
      its metric reset to the configured one. */
  lemma ResurrectOneNeighbor(rows: seq<Route>, neighbors: seq<Route>, sender: Addr, m: nat)
    requires UniqueDestinations(neighbors) && m < |neighbors| && neighbors[m].destination == sender
    ensures !HasDestination(rows, sender) ==>
      Resurrect(rows, neighbors, sender) == rows + [neighbors[m].(changed := false)]
    ensures HasDestination(rows, sender) ==>
      var k := FirstIndex(rows, sender);
      Resurrect(rows, neighbors, sender) == rows[k := rows[k].(metric := neighbors[m].metric)]
    ensures HasDestination(Resurrect(rows, neighbors, sender), sender)
  {
    if HasDestination(rows, sender) {
      var k := FirstIndex(rows, sender);
      SingleNeighborRecord(neighbors, sender, m, rows[k].metric);
      assert Resurrect(rows, neighbors, sender)[k].destination == sender;
    } else {
      SingleNeighborRecord(neighbors, sender, m, 0);
      var r := Resurrect(rows, neighbors, sender);
      assert r[|rows|].destination == sender;
    }
  }

  /** The first half keeps every existing destination in place. */
  lemma ResurrectKeepsDestinations(rows: seq<Route>, neighbors: seq<Route>, sender: Addr)
    ensures |Resurrect(rows, neighbors, sender)| >= |rows|
    ensures forall i :: 0 <= i < |rows| ==> Resurrect(rows, neighbors, sender)[i].destination == rows[i].destination
  {
    if !HasDestination(rows, sender) {
      assert Resurrect(rows, neighbors, sender)[..|rows|] == rows;
    }
  }

  /** Copies are made only of records for the sender. */
  lemma {:induction false} CopiesAreForSender(neighbors: seq<Route>, sender: Addr)
    ensures forall i :: 0 <= i < |Copies(neighbors, sender)| ==>
      Copies(neighbors, sender)[i].destination == sender && !Copies(neighbors, sender)[i].changed
  {
    if neighbors != [] {
      CopiesAreForSender(neighbors[..|neighbors| - 1], sender);
    }
  }

  /** A sender with a neighbor record gets at least one copy. */
  lemma {:induction false} CopiesOfNeighbor(neighbors: seq<Route>, sender: Addr)
    requires HasDestination(neighbors, sender)
    ensures Copies(neighbors, sender) != []
  {
    var last := neighbors[|neighbors| - 1];
    if last.destination != sender {
      var i :| 0 <= i < |neighbors| && neighbors[i].destination == sender;
      assert neighbors[..|neighbors| - 1][i].destination == sender;
      CopiesOfNeighbor(neighbors[..|neighbors| - 1], sender);
    }
  }

  /** After the first half the sender has an entry, provided it has a
      neighbor record: costToNextHop is then always defined. */
  lemma ResurrectHasSender(rows: seq<Route>, neighbors: seq<Route>, sender: Addr)
    requires HasDestination(neighbors, sender)
    ensures HasDestination(Resurrect(rows, neighbors, sender), sender)
  {
    if HasDestination(rows, sender) {
      var k := FirstIndex(rows, sender);
      assert Resurrect(rows, neighbors, sender)[k].destination == sender;
    } else {
      CopiesOfNeighbor(neighbors, sender);
      CopiesAreForSender(neighbors, sender);
      assert Resurrect(rows, neighbors, sender)[|rows|] == Copies(neighbors, sender)[0];
    }
  }

  // ---- worked examples of the rule

  /** Neighbor A (cost 1) announces D at 3: D is learned through A at 4. */
  lemma ScenarioLearnRoute(a: Addr, d: Addr, local: Addr, direct: Route, announced: Route)
    requires a != d && d != local
    requires direct.destination == a && direct.nextHop == a && direct.metric == 1
    requires announced.destination == d && announced.metric == 3
    ensures HasDestination([direct], a)
    ensures MergeOne([direct], announced, a, local)
         == [direct, announced.(metric := 4, nextHop := a, changed := true)]
  {
    assert [direct][0].destination == a;
  }

  /** D is reached through A at 4; A announces D at INF: adopted, flagged. */
  lemma ScenarioPoisonFromNextHop(a: Addr, d: Addr, local: Addr, direct: Route, viaA: Route, announced: Route)
    requires a != d && d != local
    requires direct.destination == a && direct.nextHop == a && direct.metric == 1
    requires viaA.destination == d && viaA.nextHop == a && viaA.metric == 4
    requires announced.destination == d && announced.metric == INF
    ensures HasDestination([direct, viaA], a)
    ensures MergeOne([direct, viaA], announced, a, local)
         == [direct, viaA.(metric := INF, changed := true)]
  {
    assert [direct, viaA][0].destination == a;
    assert [direct, viaA][1].destination == d;
  }

  /** D is reached through A at 4; B (cost 1) offers D at 2: switch to B at 3. */
  lemma ScenarioBetterRoute(a: Addr, b: Addr, d: Addr, local: Addr, toA: Route, toB: Route, viaA: Route, announced: Route)
    requires a != b && a != d && b != d && d != local
    requires toA.destination == a && toA.nextHop == a && toA.metric == 1
    requires toB.destination == b && toB.nextHop == b && toB.metric == 1
    requires viaA.destination == d && viaA.nextHop == a && viaA.metric == 4
    requires announced.destination == d && announced.metric == 2
    ensures HasDestination([toA, toB, viaA], b)
    ensures MergeOne([toA, toB, viaA], announced, b, local)
         == [toA, toB, viaA.(nextHop := b, metric := 3, changed := true)]
  {
    var rows := [toA, toB, viaA];
    assert rows[1].destination == b;
    assert rows[2].destination == d;
    assert FirstIndex(rows, b) == 1;
    assert FirstIndex(rows, d) == 2;
  }

  /** Java int overflow: an announced metric of 0x7fffffff over a cost of 1
      wraps to the most negative int, which beats every stored route through
      another router except one already at that metric, and which the clamp
      (an upper bound only) leaves negative. */
  lemma OverflowedOfferWins(a: Addr, b: Addr, d: Addr, local: Addr, toB: Route, viaA: Route, announced: Route)
    requires a != b && b != d && d != local
    requires toB.destination == b && toB.nextHop == b && toB.metric == 1
    requires viaA.destination == d && viaA.nextHop == a && viaA.metric > -0x8000_0000
    requires announced.destination == d && announced.metric == 0x7fff_ffff
    ensures HasDestination([toB, viaA], b)
    ensures MergeOne([toB, viaA], announced, b, local)
         == [toB, viaA.(nextHop := b, metric := -0x8000_0000, changed := true)]
  {
    var rows := [toB, viaA];
    assert rows[0].destination == b;
    assert rows[1].destination == d;
    assert FirstIndex(rows, d) == 1;
  }
}
