/** DeletionTimer's task, run when an entry's deletion timer fires: the entry
    object is removed from the table and a response goes to every neighbor.
    RoutingTableEntry does not override equals, so the list removal finds the
    entry by identity. */
module DeletionTimer {
  import opened Bytes
  import opened Routes
  import opened Wire
  import opened Table
  import opened Router

  /** The table's values after the removal of the entry at position k. */
  lemma RowsRemoved(es: seq<Entry>, x: Entry)
    requires x in es
    ensures Rows(RemoveFirst(es, x))
         == Rows(es)[..IndexOf(es, x)] + Rows(es)[IndexOf(es, x) + 1..]
  {
    var k := IndexOf(es, x);
    var r := RemoveFirst(es, x);
    var rows := Rows(es);
    assert |Rows(r)| == |rows| - 1;
    forall i | 0 <= i < |r|
      ensures Rows(r)[i] == (rows[..k] + rows[k + 1..])[i]
    {
      assert r[i] == es[if i < k then i else i + 1];
    }
  }

  /** A removal keeps the entries apart from the neighbor records and each
      remaining entry's timer its own. */
  lemma RemovePreservesValid(router: RipRouter, es: seq<Entry>, x: Entry)
    requires es == router.table.entries && router.Valid()
    ensures Distinct(RemoveFirst(es, x)) && x !in RemoveFirst(es, x)
    ensures forall n :: n in router.neighbors ==> n !in RemoveFirst(es, x)
    ensures OwnTimers(RemoveFirst(es, x))
    ensures forall e :: e in es && e != x ==> e in RemoveFirst(es, x)
  {
    RemoveFirstFromDistinct(es, x);
    var r := RemoveFirst(es, x);
    assert forall e :: e in r ==> e in es;
    if x in es {
      var k := IndexOf(es, x);
      forall i | 0 <= i < |r| && r[i].timer != null
        ensures r[i].timer.target == r[i]
      {
        assert r[i] == es[if i < k then i else i + 1];
      }
    }
  }

  /** `getEntries().remove(entry)`. */
  method RemoveEntry(router: RipRouter, entry: Entry)
    requires router.Valid()
    modifies router.table`entries
    ensures router.Valid()
    ensures router.table.entries == RemoveFirst(old(router.table.entries), entry)
    ensures entry !in router.table.entries
  {
    RemovePreservesValid(router, router.table.entries, entry);
    router.table.entries := RemoveFirst(router.table.entries, entry);
  }

  /** DeleteEntry.run for the pending deletion timer `t`: its entry leaves
      the table (every other entry stays, in order, with its value and its
      timer); `t` has run and is no longer pending, while any other timer of
      the entry stays as it was; a response goes to every neighbor from the
      reduced table. */
  method DeleteEntry(router: RipRouter, t: Timer)
    requires router.Valid() && t in router.scheduled && t.kind == Deletion
    modifies router.table`entries, router`scheduled, router`outbox
    ensures router.Valid()
    ensures router.table.entries == RemoveFirst(old(router.table.entries), t.target)
    ensures t.target !in router.table.entries
    ensures t.target in old(router.table.entries) ==>
      var k := IndexOf(old(router.table.entries), t.target);
      Rows(router.table.entries) == old(Rows(router.table.entries))[..k] + old(Rows(router.table.entries))[k + 1..]
    ensures router.scheduled == old(router.scheduled) - {t}
    ensures router.outbox
         == old(router.outbox) + Broadcast(RESPONSE, Rows(router.table.entries), Destinations(Rows(router.neighbors)))
  {
    ghost var es := router.table.entries;
    RemoveEntry(router, t.target);
    if t.target in es {
      RowsRemoved(es, t.target);
    }
    router.scheduled := router.scheduled - {t};
    router.SendUpdate(RESPONSE);
  }
}
