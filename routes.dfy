/** The value of one routing-table entry and the list-level queries that
    RoutingTable answers by scanning its entries in insertion order. */
module Routes {
  import opened Bytes

  /** RipRouter.INF: the metric meaning "unreachable". */
  const INF: Int32 := 16

  /** Every field of a RoutingTableEntry except its timer handle. */
  datatype Route = Route(
    afi: bv16,          // addressFamilyIdentifier, passed through
    tag: bv16,          // routeTag, passed through
    destination: Addr,
    mask: Addr,
    nextHop: Addr,
    metric: Int32,
    changed: bool)      // routeChangeFlag

  predicate HasDestination(rows: seq<Route>, d: Addr) {
    exists i :: 0 <= i < |rows| && rows[i].destination == d
  }

  /** The position of the first entry for `d`: what getEntryByDestination returns. */
  function FirstIndex(rows: seq<Route>, d: Addr): (k: nat)
    requires HasDestination(rows, d)
    ensures k < |rows| && rows[k].destination == d
    ensures forall j :: 0 <= j < k ==> rows[j].destination != d
  {
    if rows[0].destination == d then 0 else 1 + FirstIndex(rows[1..], d)
  }

  predicate AnyChanged(rows: seq<Route>) {
    exists i :: 0 <= i < |rows| && rows[i].changed
  }

  /** The rows with every change flag lowered. */
  function ClearFlags(rows: seq<Route>): (r: seq<Route>)
    ensures |r| == |rows| && !AnyChanged(r)
    ensures forall i :: 0 <= i < |rows| ==> r[i] == rows[i].(changed := false)
  {
    seq(|rows|, i requires 0 <= i < |rows| => rows[i].(changed := false))
  }

  /** At most one entry per destination. */
  predicate UniqueDestinations(rows: seq<Route>) {
    forall i, j :: 0 <= i < j < |rows| ==> rows[i].destination != rows[j].destination
  }

  predicate Distinct<T(==)>(s: seq<T>) {
    forall i, j :: 0 <= i < j < |s| ==> s[i] != s[j]
  }

  lemma DistinctSnoc<T>(s: seq<T>, x: T)
    requires Distinct(s) && x !in s
    ensures Distinct(s + [x])
  {
  }

  /** The position of the first occurrence of `x`. */
  function IndexOf<T(==)>(s: seq<T>, x: T): (k: nat)
    requires x in s
    ensures k < |s| && s[k] == x && x !in s[..k]
  {
    if s[0] == x then 0 else 1 + IndexOf(s[1..], x)
  }

  /** java.util.List.remove(Object): drop the first occurrence, if any. */
  function RemoveFirst<T(==)>(s: seq<T>, x: T): (r: seq<T>)
    ensures x !in s ==> r == s
    ensures x in s ==> |r| == |s| - 1 && r == s[..IndexOf(s, x)] + s[IndexOf(s, x) + 1..]
  {
    if x in s then s[..IndexOf(s, x)] + s[IndexOf(s, x) + 1..] else s
  }

  /** Removing from a list without repeats leaves no occurrence behind, keeps
      every other element, and keeps their relative order. */
  lemma RemoveFirstFromDistinct<T>(s: seq<T>, x: T)
    requires Distinct(s)
    ensures x !in RemoveFirst(s, x)
    ensures Distinct(RemoveFirst(s, x))
    ensures forall y :: y in s && y != x ==> y in RemoveFirst(s, x)
  {
    var r := RemoveFirst(s, x);
    if x in s {
      var k := IndexOf(s, x);
      assert r == s[..k] + s[k + 1..];
      forall i, j | 0 <= i < j < |r|
        ensures r[i] != r[j]
      {
        assert r[i] == s[if i < k then i else i + 1];
        assert r[j] == s[if j < k then j else j + 1];
      }
      forall y | y in s && y != x
        ensures y in r
      {
        var m :| 0 <= m < |s| && s[m] == y;
        assert m != k;
        assert r[if m < k then m else m - 1] == y;
      }
      forall i | 0 <= i < |r|
        ensures r[i] != x
      {
        assert r[i] == s[if i < k then i else i + 1];
      }
    }
  }
}
