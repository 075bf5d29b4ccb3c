/** The RIP version 2 packet layout written by RoutingTable.createPacket and
    read by RoutingTable.createTable (sections 3.6 and 4 of RFC 2453): a 4-byte
    header (command, version, two zero bytes) followed by one 20-byte entry
    per route. Split horizon with poisoned reverse (section 3.4.3 of RFC 2453)
    is applied while encoding. */
module Wire {
  import opened Bytes
  import opened Routes

  const RIP_VERSION: bv8 := 2
  const REQUEST: bv8 := 1
  const RESPONSE: bv8 := 2

  const HEADER_SIZE: nat := 4
  const ENTRY_SIZE: nat := 20

  /** The metric announced to `receiver`: a route learned from the receiver
      (and not the direct route to it) is advertised as unreachable. */
  function AdvertisedMetric(r: Route, receiver: Addr): Int32 {
    if receiver == r.nextHop && r.destination != r.nextHop then INF else r.metric
  }

  function Header(command: bv8): seq<bv8> {
    [command, RIP_VERSION, 0, 0]
  }

  function EncodeEntry(r: Route, receiver: Addr): (b: seq<bv8>)
    ensures |b| == ENTRY_SIZE
  {
    ShortBytes(r.afi) + ShortBytes(r.tag) + r.destination + r.mask + r.nextHop
      + IntBytes(AdvertisedMetric(r, receiver))
  }

  /** The entries in table order, each encoded for `receiver`. */
  function EncodeEntries(rows: seq<Route>, receiver: Addr): seq<bv8>
  {
    if rows == [] then []
    else EncodeEntries(rows[..|rows| - 1], receiver) + EncodeEntry(rows[|rows| - 1], receiver)
  }

  /** The datagram payload createPacket builds for `receiver`. */
  function Packet(command: bv8, rows: seq<Route>, receiver: Addr): seq<bv8> {
    Header(command) + EncodeEntries(rows, receiver)
  }

  /** Java's `(length - 4) / 20`, which truncates toward zero, so a datagram
      shorter than the header holds no entries. */
  function EntryCount(length: nat): (n: nat)
    ensures HEADER_SIZE + ENTRY_SIZE * n <= length || n == 0
  {
    if length < HEADER_SIZE then 0 else (length - HEADER_SIZE) / ENTRY_SIZE
  }

  /** Every counted entry lies wholly inside the datagram. */
  lemma EntryInside(length: nat, i: nat)
    requires i < EntryCount(length)
    ensures HEADER_SIZE + ENTRY_SIZE * i + ENTRY_SIZE <= length
  {
    var q := (length - HEADER_SIZE) / ENTRY_SIZE;
    assert ENTRY_SIZE * q <= length - HEADER_SIZE;
    assert ENTRY_SIZE * i + ENTRY_SIZE <= ENTRY_SIZE * q;
  }

  /** One entry as createTable reads it from the cursor position `pos`:
      getShort, getShort, three 4-byte addresses, getInt. The change flag
      starts lowered. */
  function EntryAt(p: seq<bv8>, pos: nat): Route
    requires pos + ENTRY_SIZE <= |p|
  {
    Route(ShortOf(p[pos..pos + 2]), ShortOf(p[pos + 2..pos + 4]),
      p[pos + 4..pos + 8], p[pos + 8..pos + 12], p[pos + 12..pos + 16],
      IntOf(p[pos + 16..pos + 20]), false)
  }

  /** createTable: the header is skipped, then EntryCount whole entries are
      read in order; trailing bytes that do not fill an entry are ignored. */
  function Decode(p: seq<bv8>): (rows: seq<Route>)
    ensures |rows| == EntryCount(|p|)
  {
    var n := EntryCount(|p|);
    seq(n, i requires 0 <= i < n => EntryAt(p, HEADER_SIZE + ENTRY_SIZE * i))
  }

  /** What a receiver learns about a route from the packet: every field as
      stored, except the metric as advertised, and no change flag. */
  function Announced(r: Route, receiver: Addr): Route {
    r.(metric := AdvertisedMetric(r, receiver), changed := false)
  }

  // ---- properties of the encoding

  lemma {:induction false} EncodeEntriesLength(rows: seq<Route>, receiver: Addr)
    ensures |EncodeEntries(rows, receiver)| == ENTRY_SIZE * |rows|
  {
    if rows != [] {
      EncodeEntriesLength(rows[..|rows| - 1], receiver);
    }
  }

  /** Encoding one more row appends that row's 20 bytes. */
  lemma PacketSnoc(command: bv8, rows: seq<Route>, i: nat, receiver: Addr)
    requires i < |rows|
    ensures Packet(command, rows[..i + 1], receiver)
         == Packet(command, rows[..i], receiver) + EncodeEntry(rows[i], receiver)
  {
    assert rows[..i + 1][..i] == rows[..i];
  }

  /** Entry `i` occupies bytes 20i .. 20i + 20 of the entry area. */
  lemma {:induction false} EncodeEntriesAt(rows: seq<Route>, receiver: Addr, i: nat)
    requires i < |rows|
    ensures |EncodeEntries(rows, receiver)| == ENTRY_SIZE * |rows|
    ensures EncodeEntries(rows, receiver)[ENTRY_SIZE * i .. ENTRY_SIZE * i + ENTRY_SIZE]
         == EncodeEntry(rows[i], receiver)
  {
    var front := rows[..|rows| - 1];
    EncodeEntriesLength(rows, receiver);
    EncodeEntriesLength(front, receiver);
    if i < |rows| - 1 {
      EncodeEntriesAt(front, receiver, i);
      assert front[i] == rows[i];
    }
  }

  /** createPacket's output: exactly 4 + 20n bytes, the header
      [command, 2, 0, 0], then every entry in table order. */
  lemma PacketLayout(command: bv8, rows: seq<Route>, receiver: Addr)
    ensures |Packet(command, rows, receiver)| == HEADER_SIZE + ENTRY_SIZE * |rows|
    ensures Packet(command, rows, receiver)[..HEADER_SIZE] == [command, RIP_VERSION, 0, 0]
    ensures forall i :: 0 <= i < |rows| ==>
      Packet(command, rows, receiver)[HEADER_SIZE + ENTRY_SIZE * i .. HEADER_SIZE + ENTRY_SIZE * i + ENTRY_SIZE]
        == EncodeEntry(rows[i], receiver)
  {
    EncodeEntriesLength(rows, receiver);
    forall i | 0 <= i < |rows|
      ensures Packet(command, rows, receiver)[HEADER_SIZE + ENTRY_SIZE * i .. HEADER_SIZE + ENTRY_SIZE * i + ENTRY_SIZE]
        == EncodeEntry(rows[i], receiver)
    {
      EncodeEntriesAt(rows, receiver, i);
    }
  }

  /** The fields of one encoded entry, big-endian: AFI(2), tag(2),
      destination(4), mask(4), next hop(4), metric(4). */
  lemma EntryFields(r: Route, receiver: Addr)
    ensures ShortOf(EncodeEntry(r, receiver)[0..2]) == r.afi
    ensures ShortOf(EncodeEntry(r, receiver)[2..4]) == r.tag
    ensures EncodeEntry(r, receiver)[4..8] == r.destination
    ensures EncodeEntry(r, receiver)[8..12] == r.mask
    ensures EncodeEntry(r, receiver)[12..16] == r.nextHop
    ensures IntOf(EncodeEntry(r, receiver)[16..20]) == AdvertisedMetric(r, receiver)
  {
    var b := EncodeEntry(r, receiver);
    assert b[0..2] == ShortBytes(r.afi);
    assert b[2..4] == ShortBytes(r.tag);
    assert b[16..20] == IntBytes(AdvertisedMetric(r, receiver));
    ShortRoundTrip(r.afi);
    ShortRoundTrip(r.tag);
    IntRoundTrip(AdvertisedMetric(r, receiver));
  }

  /** Decoding one encoded entry gives back the route as announced. */
  lemma DecodeEncodeEntry(r: Route, receiver: Addr)
    ensures EntryAt(EncodeEntry(r, receiver), 0) == Announced(r, receiver)
  {
    EntryFields(r, receiver);
  }

  /** Codec round trip: createTable applied to createPacket's output recovers
      every entry in order, each field intact, the metric differing from the
      stored one only where it was poisoned for this receiver. */
  lemma DecodeEncode(command: bv8, rows: seq<Route>, receiver: Addr)
    ensures Packet(command, rows, receiver)[0] == command
    ensures Decode(Packet(command, rows, receiver))
         == seq(|rows|, i requires 0 <= i < |rows| => Announced(rows[i], receiver))
  {
    var p := Packet(command, rows, receiver);
    PacketLayout(command, rows, receiver);
    assert EntryCount(|p|) == |rows|;
    forall i | 0 <= i < |rows|
      ensures Decode(p)[i] == Announced(rows[i], receiver)
    {
      EntryAtSlice(p, HEADER_SIZE + ENTRY_SIZE * i);
      DecodeEncodeEntry(rows[i], receiver);
    }
  }

  /** Split horizon with poisoned reverse, as the receiver reads it: a route
      whose next hop is the receiver is reported at INF unless it is the
      direct route to the receiver; every other route at its stored metric. */
  lemma PoisonedReverse(command: bv8, rows: seq<Route>, receiver: Addr, i: nat)
    requires i < |rows|
    ensures |Decode(Packet(command, rows, receiver))| == |rows|
    ensures receiver == rows[i].nextHop && rows[i].destination != rows[i].nextHop ==>
      Decode(Packet(command, rows, receiver))[i].metric == INF
    ensures !(receiver == rows[i].nextHop && rows[i].destination != rows[i].nextHop) ==>
      Decode(Packet(command, rows, receiver))[i].metric == rows[i].metric
  {
    DecodeEncode(command, rows, receiver);
  }

  /** Reading at `pos` sees only the 20 bytes from `pos` on. */
  lemma EntryAtSlice(p: seq<bv8>, pos: nat)
    requires pos + ENTRY_SIZE <= |p|
    ensures EntryAt(p, pos) == EntryAt(p[pos..pos + ENTRY_SIZE], 0)
  {
    var b := p[pos..pos + ENTRY_SIZE];
    SliceOfSlice(p, pos, pos + ENTRY_SIZE, 0, 2);
    SliceOfSlice(p, pos, pos + ENTRY_SIZE, 2, 4);
    SliceOfSlice(p, pos, pos + ENTRY_SIZE, 4, 8);
    SliceOfSlice(p, pos, pos + ENTRY_SIZE, 8, 12);
    SliceOfSlice(p, pos, pos + ENTRY_SIZE, 12, 16);
    SliceOfSlice(p, pos, pos + ENTRY_SIZE, 16, 20);
  }

  /** Bytes past the last whole entry do not reach the decoded table. */
  lemma DecodeIgnoresTrailingBytes(p: seq<bv8>, extra: seq<bv8>)
    requires |p| >= HEADER_SIZE && (|p| - HEADER_SIZE) % ENTRY_SIZE + |extra| < ENTRY_SIZE
    ensures Decode(p + extra) == Decode(p)
  {
    var n := EntryCount(|p|);
    assert EntryCount(|p + extra|) == n;
    forall i | 0 <= i < n
      ensures Decode(p + extra)[i] == Decode(p)[i]
    {
      var lo := HEADER_SIZE + ENTRY_SIZE * i;
      assert (p + extra)[lo .. lo + ENTRY_SIZE] == p[lo .. lo + ENTRY_SIZE];
      EntryAtSlice(p + extra, lo);
      EntryAtSlice(p, lo);
    }
  }
}
