/** RoutingTableEntry, the two per-entry timers, and RoutingTable: an
    insertion-ordered list of entry objects with its lookups, its change-flag
    bookkeeping and its packet codec. */
module Table {
  import opened Bytes
  import opened Routes
  import opened Wire

  datatype TimerKind = Expiration | Deletion

  /** An ExpirationTimer or a DeletionTimer: a one-shot task for the entry it
      was created for. Whether it is still pending is recorded by the router
      (RipRouter.scheduled); the body of its run method is an explicit transition
      (modules ExpirationTimer and DeletionTimer). */
  class Timer {
    const kind: TimerKind
    const target: Entry

    constructor (kind: TimerKind, target: Entry)
      ensures this.kind == kind && this.target == target
    {
      this.kind := kind;
      this.target := target;
    }
  }

  /** RoutingTableEntry: its public value fields, kept together as one Route
      that is read and reassigned field by field, and its timer handle, null
      at birth. */
  class Entry {
    var route: Route
    var timer: Timer?

    /** `new RoutingTableEntry()` followed by the field assignments. */
    constructor (afi: bv16, tag: bv16, destination: Addr, mask: Addr, nextHop: Addr, metric: Int32)
      ensures route == Route(afi, tag, destination, mask, nextHop, metric, false)
      ensures timer == null
    {
      route := Route(afi, tag, destination, mask, nextHop, metric, false);
      timer := null;
    }
  }

  /** The values of a list of entries, in order. */
  function Rows(es: seq<Entry>): (rows: seq<Route>)
    reads es
    ensures |rows| == |es|
    ensures forall i :: 0 <= i < |es| ==> rows[i] == es[i].route
  {
    seq(|es|, i reads es requires 0 <= i < |es| => es[i].route)
  }

  lemma RowsSnoc(es: seq<Entry>, e: Entry)
    ensures Rows(es + [e]) == Rows(es) + [e.route]
  {
  }

  /** Rows sees only the values: a step that changes timers alone leaves it
      as it was. */
  twostate lemma RowsUnchanged(es: seq<Entry>)
    requires forall j :: 0 <= j < |es| ==> es[j].route == old(es[j].route)
    ensures Rows(es) == old(Rows(es))
  {
  }

  /** Reassigning the value of the entry at position k, and of no other. */
  twostate lemma RowsUpdated(es: seq<Entry>, new k: nat)
    requires k < |es|
    requires forall j :: 0 <= j < |es| && j != k ==> es[j].route == old(es[j].route)
    ensures Rows(es) == old(Rows(es))[k := es[k].route]
  {
  }

  class RoutingTable {
    var entries: seq<Entry>

    constructor ()
      ensures entries == []
    {
      entries := [];
    }

    /** addEntry(entry): appends that very object. */
    method AddEntry(e: Entry)
      modifies this`entries
      ensures entries == old(entries) + [e]
    {
      entries := entries + [e];
    }

    /** addEntry(fields...): appends a fresh entry holding the fields. */
    method AddNewEntry(afi: bv16, tag: bv16, destination: Addr, mask: Addr, nextHop: Addr, metric: Int32)
      modifies this`entries
      ensures |entries| == |old(entries)| + 1 && entries[..|old(entries)|] == old(entries)
      ensures fresh(entries[|old(entries)|]) && entries[|old(entries)|].timer == null
      ensures entries[|old(entries)|].route == Route(afi, tag, destination, mask, nextHop, metric, false)
    {
      var e := new Entry(afi, tag, destination, mask, nextHop, metric);
      entries := entries + [e];
    }

    /** The first entry whose destination bytes equal `d`, or null when there
        is none. */
    method GetEntryByDestination(d: Addr) returns (r: Entry?)
      ensures r == null <==> !HasDestination(Rows(entries), d)
      ensures r != null ==> r == entries[FirstIndex(Rows(entries), d)]
    {
      var i := 0;
      while i < |entries|
        invariant 0 <= i <= |entries|
        invariant forall j :: 0 <= j < i ==> entries[j].route.destination != d
      {
        if entries[i].route.destination == d {
          ghost var rows := Rows(entries);
          assert rows[i].destination == d;
          assert FirstIndex(rows, d) == i by {
            var k := FirstIndex(rows, d);
            assert !(k < i) && !(i < k);
          }
          return entries[i];
        }
        i := i + 1;
      }
      return null;
    }

    /** True iff some entry's change flag is up. */
    method IsUpdated() returns (b: bool)
      ensures b == AnyChanged(Rows(entries))
    {
      var i := 0;
      while i < |entries|
        invariant 0 <= i <= |entries|
        invariant forall j :: 0 <= j < i ==> !entries[j].route.changed
      {
        if entries[i].route.changed {
          assert Rows(entries)[i].changed;
          return true;
        }
        i := i + 1;
      }
      return false;
    }

    /** Lowers every change flag; nothing else about the entries changes. */
    method ResetRoutingChangeFlags()
      modifies entries`route
      ensures Rows(entries) == ClearFlags(old(Rows(entries)))
    {
      var i := 0;
      while i < |entries|
        invariant 0 <= i <= |entries|
        invariant forall j :: 0 <= j < |entries| ==>
          entries[j].route == old(entries[j].route).(changed := entries[j].route.changed)
        invariant forall j :: 0 <= j < i ==> !entries[j].route.changed
      {
        entries[i].route := entries[i].route.(changed := false);
        i := i + 1;
      }
    }

    /** createPacket: the header, then every entry in table order, the metric
        poisoned for routes learned from `receiver`. */
    method CreatePacket(command: bv8, receiver: Addr) returns (buf: seq<bv8>)
      ensures buf == Packet(command, Rows(entries), receiver)
    {
      ghost var rows := Rows(entries);
      buf := [command, RIP_VERSION] + ShortBytes(0);
      var i := 0;
      while i < |entries|
        invariant 0 <= i <= |entries|
        invariant buf == Packet(command, rows[..i], receiver)
      {
        var entry := entries[i].route;
        var metric := if receiver == entry.nextHop && entry.destination != entry.nextHop
          then INF  // poisoned reverse
          else entry.metric;
        var piece := ShortBytes(entry.afi) + ShortBytes(entry.tag) + entry.destination
          + entry.mask + entry.nextHop + IntBytes(metric);
        assert piece == EncodeEntry(rows[i], receiver);
        PacketSnoc(command, rows, i, receiver);
        buf := buf + piece;
        i := i + 1;
      }
      assert rows[..i] == rows;
    }

    /** createTable: reads EntryCount(|p|) entries behind the 4-byte header,
        each into a fresh entry object. */
    static method CreateTable(p: seq<bv8>) returns (t: RoutingTable)
      ensures fresh(t)
      ensures Rows(t.entries) == Decode(p)
      ensures Distinct(t.entries)
      ensures forall i :: 0 <= i < |t.entries| ==> fresh(t.entries[i]) && t.entries[i].timer == null
    {
      t := new RoutingTable();
      var numberOfEntries := EntryCount(|p|);
      var pos := HEADER_SIZE;  // the header is skipped
      var i := 0;
      while i < numberOfEntries
        invariant 0 <= i <= numberOfEntries && pos == HEADER_SIZE + ENTRY_SIZE * i
        invariant fresh(t) && |t.entries| == i
        invariant forall j :: 0 <= j < i ==> t.entries[j].route == Decode(p)[j]
        invariant Distinct(t.entries)
        invariant forall j :: 0 <= j < i ==> fresh(t.entries[j]) && t.entries[j].timer == null
      {
        EntryInside(|p|, i);
        var afi := ShortOf(p[pos..pos + 2]);
        var tag := ShortOf(p[pos + 2..pos + 4]);
        var destination := p[pos + 4..pos + 8];
        var mask := p[pos + 8..pos + 12];
        var nextHop := p[pos + 12..pos + 16];
        var metric := IntOf(p[pos + 16..pos + 20]);
        t.AddNewEntry(afi, tag, destination, mask, nextHop, metric);
        assert t.entries[i].route == EntryAt(p, pos) == Decode(p)[i];
        pos := pos + ENTRY_SIZE;
        i := i + 1;
      }
    }

    /** getNetworkPrefix: the bytewise AND of an address and its mask. */
    method GetNetworkPrefix(ipAddress: Addr, subnetMask: Addr) returns (networkPrefix: array<bv8>)
      ensures fresh(networkPrefix) && networkPrefix.Length == 4
      ensures networkPrefix[..] == Prefix(ipAddress, subnetMask)
    {
      networkPrefix := new bv8[4];
      var i := 0;
      while i < networkPrefix.Length
        invariant 0 <= i <= 4
        invariant forall j :: 0 <= j < i ==> networkPrefix[j] == ipAddress[j] & subnetMask[j]
      {
        networkPrefix[i] := ipAddress[i] & subnetMask[i];
        i := i + 1;
      }
    }

    /** numberOfOnes: the number of set bits, between 0 and 8 per byte. */
    method NumberOfOnes(bytes: seq<bv8>) returns (counter: int)
      ensures counter == OnesCount(bytes)
      ensures 0 <= counter <= 8 * |bytes|
    {
      counter := 0;
      var k := 0;
      while k < |bytes|
        invariant 0 <= k <= |bytes|
        invariant counter == OnesCount(bytes[..k])
      {
        var b := bytes[k];
        var i := 0;
        while i < 8
          invariant 0 <= i <= 8
          invariant counter == OnesCount(bytes[..k]) + BitsBelow(b, i)
        {
          counter := counter + BitAt(b, i);
          i := i + 1;
        }
        assert bytes[..k + 1][..k] == bytes[..k];
        k := k + 1;
      }
      assert bytes[..k] == bytes;
      OnesCountBound(bytes);
    }
  }
}
