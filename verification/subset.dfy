/**
 The feed subsetter: membership filters over feed tables
 (build_static_feed.py, `get_trip_ids_for_stops`, `get_routes_for_trips`,
 `get_distinct_stops_from_stop_times`, `get_rows_by_ids`).

 The id lists these functions receive are only ever queried with `in`, so
 they are modelled as sets; the three collectors build a set and return it
 as a list of unspecified order, which is modelled as the set itself.
 */
module Subset {
  import opened Rows
  import Seqs

  /**
   The distinct values of column `valueField` over the rows whose column
   `keyField` is one of `ids`, accumulated row by row as the source loops do.
   */
  function Collect(table: seq<Row>, keyField: string, ids: set<string>, valueField: string): (r: set<string>)
    requires HasField(table, keyField) && HasField(table, valueField)
    ensures forall v :: v in r <==>
              exists i :: 0 <= i < |table| && table[i][keyField] in ids && table[i][valueField] == v
    decreases |table|
  {
    if |table| == 0 then {}
    else
      var prefix := table[..|table| - 1];
      var row := table[|table| - 1];
      var seen := Collect(prefix, keyField, ids, valueField);
      assert forall i :: 0 <= i < |prefix| ==> prefix[i] == table[i];
      if row[keyField] in ids then seen + {row[valueField]} else seen
  }

  /** Trips that call at one of `stopIds` (`get_trip_ids_for_stops`). */
  function TripIdsForStops(stopTimes: seq<Row>, stopIds: set<string>): (tripIds: set<string>)
    requires HasField(stopTimes, "stop_id") && HasField(stopTimes, "trip_id")
    ensures forall t :: t in tripIds <==>
              exists i :: 0 <= i < |stopTimes| && stopTimes[i]["stop_id"] in stopIds && stopTimes[i]["trip_id"] == t
  {
    Collect(stopTimes, "stop_id", stopIds, "trip_id")
  }

  /** Routes that run one of `tripIds` (`get_routes_for_trips`). */
  function RoutesForTrips(trips: seq<Row>, tripIds: set<string>): (routeIds: set<string>)
    requires HasField(trips, "trip_id") && HasField(trips, "route_id")
    ensures forall r :: r in routeIds <==>
              exists i :: 0 <= i < |trips| && trips[i]["trip_id"] in tripIds && trips[i]["route_id"] == r
  {
    Collect(trips, "trip_id", tripIds, "route_id")
  }

  /** Every stop visited by one of `tripIds` (`get_distinct_stops_from_stop_times`). */
  function StopsOfTrips(stopTimes: seq<Row>, tripIds: set<string>): (stopIds: set<string>)
    requires HasField(stopTimes, "trip_id") && HasField(stopTimes, "stop_id")
    ensures forall s :: s in stopIds <==>
              exists i :: 0 <= i < |stopTimes| && stopTimes[i]["trip_id"] in tripIds && stopTimes[i]["stop_id"] == s
  {
    Collect(stopTimes, "trip_id", tripIds, "stop_id")
  }

  /**
   The rows of `table` whose column `idField` is one of `ids`, in table order,
   unchanged, with every other row dropped (`get_rows_by_ids`).
   */
  function RowsByIds(table: seq<Row>, idField: string, ids: set<string>): (r: seq<Row>)
    requires HasField(table, idField)
    ensures Seqs.IsSubsequence(r, table)
    ensures HasField(r, idField)
    ensures forall i :: 0 <= i < |r| ==> r[i][idField] in ids
    ensures forall row :: multiset(r)[row] == if Matches(row, idField, ids) then multiset(table)[row] else 0
    ensures forall row :: row in r <==> row in table && Matches(row, idField, ids)
  {
    var p := (row: Row) => Matches(row, idField, ids);
    Seqs.FilterMembership(p, table);
    Seqs.Filter(p, table)
  }

  /** The rows kept by `RowsByIds` still carry every column all input rows carry. */
  lemma RowsByIdsKeepsField(table: seq<Row>, idField: string, ids: set<string>, field: string)
    requires HasField(table, idField) && HasField(table, field)
    ensures HasField(RowsByIds(table, idField, ids), field)
  {
    var r := RowsByIds(table, idField, ids);
    forall i | 0 <= i < |r|
      ensures field in r[i]
    {
      assert r[i] in table;
    }
  }

  /** A kept row's value in column `valueField` is one the matching collector gathers. */
  lemma KeptRowsAreCollected(table: seq<Row>, idField: string, ids: set<string>, valueField: string)
    requires HasField(table, idField) && HasField(table, valueField)
    ensures HasField(RowsByIds(table, idField, ids), valueField)
    ensures forall i :: 0 <= i < |RowsByIds(table, idField, ids)| ==>
              RowsByIds(table, idField, ids)[i][valueField] in Collect(table, idField, ids, valueField)
  {
    var r := RowsByIds(table, idField, ids);
    RowsByIdsKeepsField(table, idField, ids, valueField);
    forall i | 0 <= i < |r|
      ensures r[i][valueField] in Collect(table, idField, ids, valueField)
    {
      assert r[i] in table;
      var k :| 0 <= k < |table| && table[k] == r[i];
    }
  }

  /** Dropping rows of a referencing table keeps the references of the rows that stay. */
  lemma RowsByIdsKeepsReferences(a: seq<Row>, idField: string, ids: set<string>, fa: string, b: seq<Row>, fb: string)
    requires HasField(a, idField) && HasField(a, fa) && HasField(b, fb)
    requires References(a, fa, b, fb)
    ensures HasField(RowsByIds(a, idField, ids), fa)
    ensures References(RowsByIds(a, idField, ids), fa, b, fb)
  {
    var r := RowsByIds(a, idField, ids);
    RowsByIdsKeepsField(a, idField, ids, fa);
    forall i | 0 <= i < |r|
      ensures HasRowWith(b, fb, r[i][fa])
    {
      assert r[i] in a;
      var k :| 0 <= k < |a| && a[k] == r[i];
    }
  }

  /**
   Keeping the referenced rows whose id is one of `ids` keeps every
   reference that points into `ids`.
   */
  lemma RowsByIdsKeepsReferenced(a: seq<Row>, fa: string, b: seq<Row>, fb: string, ids: set<string>)
    requires HasField(a, fa) && HasField(b, fb)
    requires References(a, fa, b, fb)
    requires forall i :: 0 <= i < |a| ==> a[i][fa] in ids
    ensures References(a, fa, RowsByIds(b, fb, ids), fb)
  {
    var r := RowsByIds(b, fb, ids);
    forall i | 0 <= i < |a|
      ensures HasRowWith(r, fb, a[i][fa])
    {
      var k :| 0 <= k < |b| && b[k][fb] == a[i][fa];
      assert b[k] in r;
      var n :| 0 <= n < |r| && r[n] == b[k];
    }
  }

  /** `row` is the first row of `table` whose column `idField` equals `id`. */
  predicate IsFirstWithId(table: seq<Row>, idField: string, id: string, row: Row)
    requires HasField(table, idField)
  {
    exists i :: 0 <= i < |table| && table[i] == row && forall j :: 0 <= j < i ==> table[j][idField] != id
  }

  /**
   The first row of `table` whose column `idField` equals `id`, as the shape
   loop's `get_rows_by_ids(..., [id])[0]`; the source fails with an index
   error when there is none, which the precondition excludes.
   */
  function FirstRowWithId(table: seq<Row>, idField: string, id: string): (row: Row)
    requires HasField(table, idField)
    requires HasRowWith(table, idField, id)
    ensures idField in row && row[idField] == id
    ensures IsFirstWithId(table, idField, id, row)
  {
    var p := (row: Row) => Matches(row, idField, {id});
    var i := FirstIndexWithId(table, idField, id);
    Seqs.FilterHead(p, table, i);
    RowsByIds(table, idField, {id})[0]
  }

  /** Index of the first row carrying `id` in column `idField`. */
  function FirstIndexWithId(table: seq<Row>, idField: string, id: string): (i: nat)
    requires HasField(table, idField)
    requires HasRowWith(table, idField, id)
    ensures i < |table| && table[i][idField] == id
    ensures forall j :: 0 <= j < i ==> table[j][idField] != id
    decreases |table|
  {
    if table[0][idField] == id then 0
    else
      assert HasRowWith(table[1..], idField, id) by {
        var k :| 0 <= k < |table| && table[k][idField] == id;
        assert table[1..][k - 1] == table[k];
      }
      1 + FirstIndexWithId(table[1..], idField, id)
  }
}
