/**
 Shape generation (build_static_feed.py:159 and 175-216): every trip gets a
 shape id derived from its trip id; each distinct shape id is generated once,
 from the first trip that carries it, by sending that trip's stop
 coordinates to a routing service and writing the returned polyline as
 shapes.txt rows.

 The routing service is a parameter: `router` maps the coordinate string of
 the request to the coordinates of the first route of the response.
 */
module Shapes {
  import opened Rows
  import Seqs
  import Text
  import Sorting
  import Subset

  /** A GeoJSON position: longitude first, then latitude, possibly followed by more values. */
  type Position = p: seq<real> | |p| >= 2 witness [0.0, 0.0]

  /** The routing service: request coordinates to the polyline of its first route. */
  type Router = string -> seq<Position>

  /** One row of shapes.txt. */
  datatype ShapeRow = ShapeRow(shapeId: string, lat: real, lon: real, ptSequence: nat)

  const ShapePrefix: string := "Shape_"

  /** Number of trip-id characters that make up a shape id. */
  const ShapeIdLength: nat := 5

  function Min(a: nat, b: nat): nat {
    if a <= b then a else b
  }

  /** The shape id of a trip: the prefix followed by the first five characters of the trip id. */
  function ShapeId(tripId: string): (r: string)
    ensures |r| == |ShapePrefix| + Min(ShapeIdLength, |tripId|)
    ensures r[..|ShapePrefix|] == ShapePrefix
    ensures r[|ShapePrefix|..] <= tripId
  {
    ShapePrefix + tripId[..Min(ShapeIdLength, |tripId|)]
  }

  /**
   Two trips share a shape id exactly when they are the same short id, or
   both are at least five characters long and agree on the first five.
   */
  lemma {:induction false} SameShapeId(a: string, b: string)
    ensures ShapeId(a) == ShapeId(b) <==> a == b || (|a| >= 5 && |b| >= 5 && a[..5] == b[..5])
  {
    var pa := a[..Min(ShapeIdLength, |a|)];
    var pb := b[..Min(ShapeIdLength, |b|)];
    if ShapeId(a) == ShapeId(b) {
      assert ShapeId(a)[|ShapePrefix|..] == pa;
      assert ShapeId(b)[|ShapePrefix|..] == pb;
      assert pa == pb;
      if |a| < 5 {
        assert a == pa;
        assert |b| < 5;
        assert b == pb;
      }
    }
  }

  /** The shape ids of the trips in `tripIds`. */
  function ShapeIdsOf(tripIds: seq<string>): set<string>
    decreases |tripIds|
  {
    if |tripIds| == 0 then {}
    else ShapeIdsOf(tripIds[..|tripIds| - 1]) + {ShapeId(tripIds[|tripIds| - 1])}
  }

  /** A shape id belongs to a list of trips exactly when one of its trips carries it. */
  lemma {:induction false} ShapeIdsOfMembers(tripIds: seq<string>, s: string)
    ensures s in ShapeIdsOf(tripIds) <==> exists i :: 0 <= i < |tripIds| && ShapeId(tripIds[i]) == s
    decreases |tripIds|
  {
    if |tripIds| > 0 {
      var init := tripIds[..|tripIds| - 1];
      ShapeIdsOfMembers(init, s);
      if exists i :: 0 <= i < |tripIds| && ShapeId(tripIds[i]) == s {
        var i :| 0 <= i < |tripIds| && ShapeId(tripIds[i]) == s;
        if i < |init| {
          assert init[i] == tripIds[i];
        }
      }
    }
  }

  /** Appending a trip adds its shape id to the shape ids of a list. */
  lemma ShapeIdsOfSnoc(tripIds: seq<string>, t: string)
    ensures ShapeIdsOf(tripIds + [t]) == ShapeIdsOf(tripIds) + {ShapeId(t)}
  {
    assert (tripIds + [t])[..|tripIds|] == tripIds;
  }

  /**
   The shape ids of an enumeration of a set of trips are the shape ids of
   the set, whatever the order: the `shape_ids_total` set (line 175).
   */
  lemma ShapeIdsOfEnumeration(tripOrder: seq<string>, tripIds: set<string>)
    requires Seqs.Elements(tripOrder) == tripIds
    ensures ShapeIdsOf(tripOrder) == set t | t in tripIds :: ShapeId(t)
  {
    forall s
      ensures s in ShapeIdsOf(tripOrder) <==> exists t :: t in tripIds && ShapeId(t) == s
    {
      ShapeIdsOfMembers(tripOrder, s);
      if exists t :: t in tripIds && ShapeId(t) == s {
        var t :| t in tripIds && ShapeId(t) == s;
        assert t in Seqs.Elements(tripOrder);
        var i :| 0 <= i < |tripOrder| && tripOrder[i] == t;
      }
    }
  }

  /** No trip before position `j` of `tripOrder` has the shape id of trip `j`. */
  predicate FirstOfShape(tripOrder: seq<string>, j: nat)
    requires j < |tripOrder|
  {
    forall i :: 0 <= i < j ==> ShapeId(tripOrder[i]) != ShapeId(tripOrder[j])
  }

  /** The stop-time rows of `stopTimes` carry the columns the shape loop reads. */
  predicate StopTimesReadable(stopTimes: seq<Row>) {
    HasField(stopTimes, "trip_id") && HasField(stopTimes, "stop_id") && HasField(stopTimes, "stop_sequence")
  }

  /** The stop rows carry the columns the shape loop reads. */
  predicate StopsReadable(stops: seq<Row>) {
    HasField(stops, "stop_id") && HasField(stops, "stop_lon") && HasField(stops, "stop_lat")
  }

  /**
   The sort key of a stop time: its `stop_sequence` parsed as an integer by
   `toInt`; rows without the column do not occur where it is used.
   */
  function SequenceKey(toInt: string -> int): Row -> int {
    (row: Row) => if "stop_sequence" in row then toInt(row["stop_sequence"]) else 0
  }

  /**
   The stop times of one trip, in ascending stop-sequence order (lines
   186-187): exactly the trip's rows of `stopTimes`, each as often as there,
   with rows of equal stop sequence left in file order.
   */
  function TripStopTimes(stopTimes: seq<Row>, tripId: string, toInt: string -> int): (r: seq<Row>)
    requires StopTimesReadable(stopTimes)
    ensures Sorting.SortedBy(r, SequenceKey(toInt))
    ensures forall row :: multiset(r)[row] == if Matches(row, "trip_id", {tripId}) then multiset(stopTimes)[row] else 0
    ensures forall i :: 0 <= i < |r| ==> r[i] in stopTimes && r[i]["trip_id"] == tripId
    ensures HasField(r, "stop_id")
    ensures Sorting.SameOrderWithinKeys(r, Subset.RowsByIds(stopTimes, "trip_id", {tripId}), SequenceKey(toInt))
  {
    var own := Subset.RowsByIds(stopTimes, "trip_id", {tripId});
    var r := Sorting.SortBy(own, SequenceKey(toInt));
    TripStopTimesMembers(stopTimes, tripId, r);
    assert Sorting.SameOrderWithinKeys(r, own, SequenceKey(toInt)) by {
      forall k ensures Sorting.WithKey(r, SequenceKey(toInt), k) == Sorting.WithKey(own, SequenceKey(toInt), k) {
        Sorting.SortByIsStable(own, SequenceKey(toInt), k);
      }
    }
    r
  }

  /** A sequence holding exactly the trip's stop-time rows consists of rows of that trip. */
  lemma TripStopTimesMembers(stopTimes: seq<Row>, tripId: string, r: seq<Row>)
    requires StopTimesReadable(stopTimes)
    requires forall row :: multiset(r)[row] == if Matches(row, "trip_id", {tripId}) then multiset(stopTimes)[row] else 0
    ensures forall i :: 0 <= i < |r| ==> r[i] in stopTimes && r[i]["trip_id"] == tripId
    ensures HasField(r, "stop_id")
  {
    forall i | 0 <= i < |r|
      ensures r[i] in stopTimes && "stop_id" in r[i] && r[i]["trip_id"] == tripId
    {
      assert multiset(r)[r[i]] > 0;
      var j :| 0 <= j < |stopTimes| && stopTimes[j] == r[i];
    }
  }

  /** Every stop visited by trip `tripId` has a row in `stops`. */
  predicate TripStopsResolve(tripId: string, stopTimes: seq<Row>, stops: seq<Row>)
    requires StopTimesReadable(stopTimes) && StopsReadable(stops)
  {
    forall i :: 0 <= i < |stopTimes| && stopTimes[i]["trip_id"] == tripId ==>
      HasRowWith(stops, "stop_id", stopTimes[i]["stop_id"])
  }

  /** The stop row looked up for one stop id: the first row of `stops` with that `stop_id` (line 191). */
  function LookUpStop(stops: seq<Row>, stopId: string): (row: Row)
    requires HasField(stops, "stop_id") && HasRowWith(stops, "stop_id", stopId)
    ensures row in stops && "stop_id" in row && row["stop_id"] == stopId
    ensures Subset.IsFirstWithId(stops, "stop_id", stopId, row)
  {
    Subset.FirstRowWithId(stops, "stop_id", stopId)
  }

  /** For each stop time of `stopSeq`, the stop row looked up for its `stop_id`. */
  function LookUpStops(stopSeq: seq<Row>, stops: seq<Row>): (r: seq<Row>)
    requires HasField(stopSeq, "stop_id") && HasField(stops, "stop_id")
    requires forall i :: 0 <= i < |stopSeq| ==> HasRowWith(stops, "stop_id", stopSeq[i]["stop_id"])
    ensures |r| == |stopSeq|
    ensures forall i :: 0 <= i < |r| ==> r[i] in stops && r[i]["stop_id"] == stopSeq[i]["stop_id"]
    ensures forall i :: 0 <= i < |r| ==> Subset.IsFirstWithId(stops, "stop_id", stopSeq[i]["stop_id"], r[i])
  {
    seq(|stopSeq|, i requires 0 <= i < |stopSeq| => LookUpStop(stops, stopSeq[i]["stop_id"]))
  }

  /** The stop row looked up for each of the trip's stop times, in stop-sequence order. */
  function TripStops(tripId: string, stopTimes: seq<Row>, stops: seq<Row>, toInt: string -> int): (r: seq<Row>)
    requires StopTimesReadable(stopTimes) && StopsReadable(stops)
    requires TripStopsResolve(tripId, stopTimes, stops)
    ensures var stopSeq := TripStopTimes(stopTimes, tripId, toInt);
            && |r| == |stopSeq|
            && forall i :: 0 <= i < |r| ==> r[i] in stops && r[i]["stop_id"] == stopSeq[i]["stop_id"]
  {
    var stopSeq := TripStopTimes(stopTimes, tripId, toInt);
    StopTimesResolve(tripId, stopTimes, stops, stopSeq);
    LookUpStops(stopSeq, stops)
  }

  /** Rows taken from the trip's stop times name stops that `stops` holds. */
  lemma StopTimesResolve(tripId: string, stopTimes: seq<Row>, stops: seq<Row>, stopSeq: seq<Row>)
    requires StopTimesReadable(stopTimes) && StopsReadable(stops)
    requires TripStopsResolve(tripId, stopTimes, stops)
    requires forall i :: 0 <= i < |stopSeq| ==> stopSeq[i] in stopTimes && stopSeq[i]["trip_id"] == tripId
    ensures HasField(stopSeq, "stop_id")
    ensures forall i :: 0 <= i < |stopSeq| ==> HasRowWith(stops, "stop_id", stopSeq[i]["stop_id"])
  {
    forall i | 0 <= i < |stopSeq|
      ensures "stop_id" in stopSeq[i] && HasRowWith(stops, "stop_id", stopSeq[i]["stop_id"])
    {
      var j :| 0 <= j < |stopTimes| && stopTimes[j] == stopSeq[i];
    }
  }

  /** The `lon,lat` text of a stop, taken verbatim from its CSV cells (line 192). */
  function CoordinateOf(stop: Row): string
    requires "stop_lon" in stop && "stop_lat" in stop
  {
    stop["stop_lon"] + "," + stop["stop_lat"]
  }

  /** The coordinate string sent to the routing service for a trip (lines 186-194). */
  function RouteRequest(tripId: string, stopTimes: seq<Row>, stops: seq<Row>, toInt: string -> int): string
    requires StopTimesReadable(stopTimes) && StopsReadable(stops)
    requires TripStopsResolve(tripId, stopTimes, stops)
  {
    Text.Join(Coordinates(TripStops(tripId, stopTimes, stops, toInt)), ';')
  }

  /** The coordinate text of each stop row. */
  function Coordinates(visited: seq<Row>): (r: seq<string>)
    requires forall i :: 0 <= i < |visited| ==> "stop_lon" in visited[i] && "stop_lat" in visited[i]
    ensures |r| == |visited| && forall i :: 0 <= i < |r| ==> r[i] == CoordinateOf(visited[i])
  {
    seq(|visited|, i requires 0 <= i < |visited| => CoordinateOf(visited[i]))
  }

  /**
   The `;`-joined coordinates of stop rows taken from `stops` split back into
   one piece per row, each splitting on `,` into the row's longitude and
   latitude, provided the cells contain neither separator.
   */
  lemma CoordinatesDecode(visited: seq<Row>, stops: seq<Row>)
    requires StopsReadable(stops) && PlainCoordinates(stops)
    requires |visited| > 0 && forall i :: 0 <= i < |visited| ==> visited[i] in stops
    ensures var pieces := Text.Split(Text.Join(Coordinates(visited), ';'), ';');
            && |pieces| == |visited|
            && forall i :: 0 <= i < |pieces| ==>
                 Text.Split(pieces[i], ',') == [visited[i]["stop_lon"], visited[i]["stop_lat"]]
  {
    var coordinates := Coordinates(visited);
    forall i | 0 <= i < |coordinates|
      ensures ';' !in coordinates[i]
      ensures Text.Split(coordinates[i], ',') == [visited[i]["stop_lon"], visited[i]["stop_lat"]]
    {
      CoordinateDecodes(visited[i], stops);
    }
    Text.SplitJoin(coordinates, ';');
  }

  /** Cells of the stop table that contain neither `;` nor `,`. */
  predicate PlainCoordinates(stops: seq<Row>)
    requires StopsReadable(stops)
  {
    forall k :: 0 <= k < |stops| ==>
      ';' !in stops[k]["stop_lon"] && ';' !in stops[k]["stop_lat"] &&
      ',' !in stops[k]["stop_lon"] && ',' !in stops[k]["stop_lat"]
  }

  /**
   The request lists the trip's stops one coordinate per stop time, in
   stop-sequence order: splitting it on `;` gives one piece per stop time,
   and piece i splits on `,` into the longitude and latitude text of the
   i-th stop looked up, provided those cells contain neither separator.
   */
  lemma RouteRequestDecodes(tripId: string, stopTimes: seq<Row>, stops: seq<Row>, toInt: string -> int)
    requires StopTimesReadable(stopTimes) && StopsReadable(stops)
    requires TripStopsResolve(tripId, stopTimes, stops)
    requires HasRowWith(stopTimes, "trip_id", tripId)
    requires PlainCoordinates(stops)
    ensures var visited := TripStops(tripId, stopTimes, stops, toInt);
            var pieces := Text.Split(RouteRequest(tripId, stopTimes, stops, toInt), ';');
            && |pieces| == |TripStopTimes(stopTimes, tripId, toInt)|
            && forall i :: 0 <= i < |pieces| ==>
                 Text.Split(pieces[i], ',') == [visited[i]["stop_lon"], visited[i]["stop_lat"]]
  {
    var stopSeq := TripStopTimes(stopTimes, tripId, toInt);
    var i0 := Subset.FirstIndexWithId(stopTimes, "trip_id", tripId);
    assert multiset(stopSeq)[stopTimes[i0]] > 0;
    CoordinatesDecode(TripStops(tripId, stopTimes, stops, toInt), stops);
  }

  /** A stop's coordinate text splits on `,` into its longitude and latitude cells. */
  lemma CoordinateDecodes(stop: Row, stops: seq<Row>)
    requires StopsReadable(stops) && PlainCoordinates(stops) && stop in stops
    ensures ';' !in CoordinateOf(stop)
    ensures Text.Split(CoordinateOf(stop), ',') == [stop["stop_lon"], stop["stop_lat"]]
  {
    var k :| 0 <= k < |stops| && stops[k] == stop;
    assert CoordinateOf(stop) == stop["stop_lon"] + [','] + stop["stop_lat"];
    Text.SplitAfterPiece(stop["stop_lon"], ',', stop["stop_lat"]);
    Text.SplitWithoutSeparator(stop["stop_lat"], ',');
  }

  /** The shapes.txt rows for one polyline (lines 210-216). */
  function ShapeRows(shapeId: string, points: seq<Position>): (r: seq<ShapeRow>)
    ensures |r| == |points|
    ensures forall i :: 0 <= i < |r| ==>
              && r[i].shapeId == shapeId
              && r[i].lat == points[i][1]
              && r[i].lon == points[i][0]
              && r[i].ptSequence == i
  {
    seq(|points|, i requires 0 <= i < |points| => ShapeRow(shapeId, points[i][1], points[i][0], i))
  }

  /** The polyline a block of shape rows describes, as `[lon, lat]` positions. */
  function PointsOf(rows: seq<ShapeRow>): seq<Position> {
    seq(|rows|, i requires 0 <= i < |rows| => [rows[i].lon, rows[i].lat])
  }

  /** Reading the rows back gives the polyline when every position is a plain `[lon, lat]` pair. */
  lemma PointsOfShapeRows(shapeId: string, points: seq<Position>)
    requires forall i :: 0 <= i < |points| ==> |points[i]| == 2
    ensures PointsOf(ShapeRows(shapeId, points)) == points
  {
    var back := PointsOf(ShapeRows(shapeId, points));
    forall i | 0 <= i < |points|
      ensures back[i] == points[i]
    {
      assert back[i] == [points[i][0], points[i][1]];
    }
  }

  /** The rows of shape `shapeId`, in file order. */
  function RowsOfShape(rows: seq<ShapeRow>, shapeId: string): seq<ShapeRow> {
    Seqs.Filter((row: ShapeRow) => row.shapeId == shapeId, rows)
  }

  /** Point sequence numbers run 0, 1, 2, ... without gaps. */
  predicate Dense(rows: seq<ShapeRow>) {
    forall i :: 0 <= i < |rows| ==> rows[i].ptSequence == i
  }

  /** The rows generated for the shape of trip `tripId`. */
  function ShapeOfTrip(tripId: string, stopTimes: seq<Row>, stops: seq<Row>, toInt: string -> int, router: Router): (r: seq<ShapeRow>)
    requires StopTimesReadable(stopTimes) && StopsReadable(stops)
    requires TripStopsResolve(tripId, stopTimes, stops)
    ensures forall i :: 0 <= i < |r| ==> r[i].shapeId == ShapeId(tripId)
    ensures Dense(r)
  {
    ShapeRows(ShapeId(tripId), router(RouteRequest(tripId, stopTimes, stops, toInt)))
  }

  /** Appending a block of rows of one shape extends that shape's rows and no other's. */
  lemma AppendShapeBlock(written: seq<ShapeRow>, block: seq<ShapeRow>, shapeId: string, other: string)
    requires forall i :: 0 <= i < |block| ==> block[i].shapeId == shapeId
    ensures RowsOfShape(written + block, other) ==
              RowsOfShape(written, other) + (if other == shapeId then block else [])
  {
    var p := (row: ShapeRow) => row.shapeId == other;
    Seqs.FilterConcat(p, written, block);
    Seqs.FilterAllOrNone(p, block, other == shapeId);
  }

  /** Trip `i` is the first of its shape exactly when its shape id has not been generated yet. */
  lemma FirstOfShapeIffNew(tripOrder: seq<string>, i: nat, generated: set<string>)
    requires i < |tripOrder|
    requires generated == ShapeIdsOf(tripOrder[..i])
    ensures FirstOfShape(tripOrder, i) <==> ShapeId(tripOrder[i]) !in generated
  {
    ShapeIdsOfMembers(tripOrder[..i], ShapeId(tripOrder[i]));
    assert forall j :: 0 <= j < i ==> tripOrder[..i][j] == tripOrder[j];
  }

  /**
   What the shape loop needs of its input: every trip that generates a shape
   (the first of its shape id in `tripOrder`) visits only stops that the stop
   table holds; the source fails with an index error otherwise (line 191).
   */
  predicate Routable(tripOrder: seq<string>, stopTimes: seq<Row>, stops: seq<Row>)
    requires StopTimesReadable(stopTimes) && StopsReadable(stops)
  {
    forall j {:trigger FirstOfShape(tripOrder, j)} :: 0 <= j < |tripOrder| && FirstOfShape(tripOrder, j) ==> TripStopsResolve(tripOrder[j], stopTimes, stops)
  }

  /**
   The rows generated for a trip, as a function of the trip id: its shape
   when all its stops resolve, and no rows otherwise (where the source would
   fail instead, a case `Routable` rules out for the trips that matter).
   */
  function ShapeOf(stopTimes: seq<Row>, stops: seq<Row>, toInt: string -> int, router: Router): string -> seq<ShapeRow> {
    (tripId: string) =>
      if StopTimesReadable(stopTimes) && StopsReadable(stops) && TripStopsResolve(tripId, stopTimes, stops)
      then ShapeOfTrip(tripId, stopTimes, stops, toInt, router)
      else []
  }

  /** Every row produced for a trip carries the trip's shape id. */
  ghost predicate Labelled(shapeOf: string -> seq<ShapeRow>) {
    forall t, i :: 0 <= i < |shapeOf(t)| ==> shapeOf(t)[i].shapeId == ShapeId(t)
  }

  /** The rows produced for every trip are numbered densely. */
  ghost predicate AllDense(shapeOf: string -> seq<ShapeRow>) {
    forall t :: Dense(shapeOf(t))
  }

  /** `shapeOf` produces, for every trip whose stops resolve, the rows of its routed shape. */
  ghost predicate Routes(shapeOf: string -> seq<ShapeRow>, stopTimes: seq<Row>, stops: seq<Row>, toInt: string -> int, router: Router)
    requires StopTimesReadable(stopTimes) && StopsReadable(stops)
  {
    forall t :: TripStopsResolve(t, stopTimes, stops) ==> shapeOf(t) == ShapeOfTrip(t, stopTimes, stops, toInt, router)
  }

  /**
   The rows produced from routing responses are labelled with the trip's
   shape id, numbered densely, and are the routed shapes.
   */
  lemma ShapeOfIsWellFormed(stopTimes: seq<Row>, stops: seq<Row>, toInt: string -> int, router: Router)
    requires StopTimesReadable(stopTimes) && StopsReadable(stops)
    ensures Labelled(ShapeOf(stopTimes, stops, toInt, router))
    ensures AllDense(ShapeOf(stopTimes, stops, toInt, router))
    ensures Routes(ShapeOf(stopTimes, stops, toInt, router), stopTimes, stops, toInt, router)
  {
  }

  /** The state of the shape loop: the shape ids generated so far and the shapes.txt rows written. */
  datatype Progress = Progress(generated: set<string>, written: seq<ShapeRow>)

  /**
   One pass of the loop body on trip `j` (lines 177-216), given the progress
   after the trips before it: a trip whose shape id was generated already
   changes nothing; otherwise its rows `shapeOf(trip)` are appended. Whether
   the shape is new is exactly whether the trip is the first of its shape
   id, so the shape written is that of the first trip carrying it.
   */
  function Step(tripOrder: seq<string>, j: nat, p: Progress, shapeOf: string -> seq<ShapeRow>): (r: Progress)
    requires j < |tripOrder|
    requires p.generated == ShapeIdsOf(tripOrder[..j])
    ensures r.generated == ShapeIdsOf(tripOrder[..j + 1])
    ensures ShapeId(tripOrder[j]) !in p.generated <==> FirstOfShape(tripOrder, j)
    ensures r.written == p.written + if FirstOfShape(tripOrder, j) then shapeOf(tripOrder[j]) else []
  {
    var shapeId := ShapeId(tripOrder[j]);
    assert tripOrder[..j + 1] == tripOrder[..j] + [tripOrder[j]];
    ShapeIdsOfSnoc(tripOrder[..j], tripOrder[j]);
    FirstOfShapeIffNew(tripOrder, j, p.generated);
    if shapeId in p.generated then p
    else Progress(p.generated + {shapeId}, p.written + shapeOf(tripOrder[j]))
  }

  /** The progress of the shape loop after visiting the first `n` trips of `tripOrder`. */
  function ShapesAfter(tripOrder: seq<string>, n: nat, shapeOf: string -> seq<ShapeRow>): (r: Progress)
    requires n <= |tripOrder|
    ensures r.generated == ShapeIdsOf(tripOrder[..n])
    decreases n
  {
    if n == 0 then Progress({}, [])
    else Step(tripOrder, n - 1, ShapesAfter(tripOrder, n - 1, shapeOf), shapeOf)
  }

  /**
   Visiting trip `n - 1` adds rows to one shape only, its own, and only when
   it is the first trip of that shape.
   */
  lemma RowsAfterStep(tripOrder: seq<string>, n: nat, shapeOf: string -> seq<ShapeRow>, s: string)
    requires 0 < n <= |tripOrder| && Labelled(shapeOf)
    ensures RowsOfShape(ShapesAfter(tripOrder, n, shapeOf).written, s) ==
            RowsOfShape(ShapesAfter(tripOrder, n - 1, shapeOf).written, s) +
            if FirstOfShape(tripOrder, n - 1) && s == ShapeId(tripOrder[n - 1]) then shapeOf(tripOrder[n - 1]) else []
  {
    var prev := ShapesAfter(tripOrder, n - 1, shapeOf);
    var block := if FirstOfShape(tripOrder, n - 1) then shapeOf(tripOrder[n - 1]) else [];
    assert ShapesAfter(tripOrder, n, shapeOf).written == prev.written + block;
    AppendShapeBlock(prev.written, block, ShapeId(tripOrder[n - 1]), s);
  }

  /** A shape id that has not been generated has no rows in shapes.txt. */
  lemma {:induction false} UngeneratedShapeHasNoRows(tripOrder: seq<string>, n: nat, shapeOf: string -> seq<ShapeRow>, s: string)
    requires n <= |tripOrder| && Labelled(shapeOf)
    requires s !in ShapeIdsOf(tripOrder[..n])
    ensures RowsOfShape(ShapesAfter(tripOrder, n, shapeOf).written, s) == []
    decreases n
  {
    if n > 0 {
      assert tripOrder[..n] == tripOrder[..n - 1] + [tripOrder[n - 1]];
      ShapeIdsOfSnoc(tripOrder[..n - 1], tripOrder[n - 1]);
      UngeneratedShapeHasNoRows(tripOrder, n - 1, shapeOf, s);
      RowsAfterStep(tripOrder, n, shapeOf, s);
    }
  }

  /** The trip that generates a shape leaves exactly its own rows under that shape id. */
  lemma NewShapeRows(tripOrder: seq<string>, n: nat, shapeOf: string -> seq<ShapeRow>)
    requires 0 < n <= |tripOrder| && Labelled(shapeOf)
    requires FirstOfShape(tripOrder, n - 1)
    ensures RowsOfShape(ShapesAfter(tripOrder, n, shapeOf).written, ShapeId(tripOrder[n - 1])) == shapeOf(tripOrder[n - 1])
  {
    var s := ShapeId(tripOrder[n - 1]);
    RowsAfterStep(tripOrder, n, shapeOf, s);
    FirstOfShapeIffNew(tripOrder, n - 1, ShapesAfter(tripOrder, n - 1, shapeOf).generated);
    UngeneratedShapeHasNoRows(tripOrder, n - 1, shapeOf, s);
    assert RowsOfShape(ShapesAfter(tripOrder, n - 1, shapeOf).written, s) == [];
  }

  /** A trip after the first one of a shape leaves that shape's rows as they were. */
  lemma LaterTripKeepsShape(tripOrder: seq<string>, n: nat, shapeOf: string -> seq<ShapeRow>, j: nat)
    requires n <= |tripOrder| && Labelled(shapeOf)
    requires j < n - 1
    ensures RowsOfShape(ShapesAfter(tripOrder, n, shapeOf).written, ShapeId(tripOrder[j])) ==
            RowsOfShape(ShapesAfter(tripOrder, n - 1, shapeOf).written, ShapeId(tripOrder[j]))
  {
    var s := ShapeId(tripOrder[j]);
    RowsAfterStep(tripOrder, n, shapeOf, s);
    if FirstOfShape(tripOrder, n - 1) {
      assert s != ShapeId(tripOrder[n - 1]);
    }
    var before := RowsOfShape(ShapesAfter(tripOrder, n - 1, shapeOf).written, s);
    assert before + [] == before;
  }

  /**
   The rows of a shape are exactly the rows produced for the first trip
   carrying its id, written once: later trips with the same id, and other
   shapes, add nothing to them.
   */
  lemma {:induction false} ShapeWrittenOnce(tripOrder: seq<string>, n: nat, shapeOf: string -> seq<ShapeRow>, j: nat)
    requires n <= |tripOrder| && Labelled(shapeOf)
    requires j < n && FirstOfShape(tripOrder, j)
    ensures RowsOfShape(ShapesAfter(tripOrder, n, shapeOf).written, ShapeId(tripOrder[j])) == shapeOf(tripOrder[j])
    decreases n
  {
    if n - 1 == j {
      NewShapeRows(tripOrder, n, shapeOf);
    } else {
      ShapeWrittenOnce(tripOrder, n - 1, shapeOf, j);
      LaterTripKeepsShape(tripOrder, n, shapeOf, j);
    }
  }

  /** Position of the first trip of `tripOrder` whose shape id is that of trip `i`. */
  ghost function FirstTripOfShape(tripOrder: seq<string>, i: nat): (j: nat)
    requires i < |tripOrder|
    ensures j <= i && ShapeId(tripOrder[j]) == ShapeId(tripOrder[i]) && FirstOfShape(tripOrder, j)
    decreases i
  {
    if FirstOfShape(tripOrder, i) then i
    else
      var k :| 0 <= k < i && ShapeId(tripOrder[k]) == ShapeId(tripOrder[i]);
      FirstTripOfShape(tripOrder, k)
  }

  /** The points of every shape are numbered 0, 1, 2, ... in file order. */
  lemma ShapesAreDense(tripOrder: seq<string>, n: nat, shapeOf: string -> seq<ShapeRow>, s: string)
    requires n <= |tripOrder| && Labelled(shapeOf) && AllDense(shapeOf)
    ensures Dense(RowsOfShape(ShapesAfter(tripOrder, n, shapeOf).written, s))
  {
    ShapeIdsOfMembers(tripOrder[..n], s);
    if s in ShapeIdsOf(tripOrder[..n]) {
      var i :| 0 <= i < n && ShapeId(tripOrder[..n][i]) == s;
      var j := FirstTripOfShape(tripOrder, i);
      ShapeWrittenOnce(tripOrder, n, shapeOf, j);
      assert Dense(shapeOf(tripOrder[j]));
    } else {
      UngeneratedShapeHasNoRows(tripOrder, n, shapeOf, s);
    }
  }

  /**
   After the last trip: the generated shape ids are those of all trips; the
   rows of each are the routed shape of the first trip carrying it; no
   other shape id has rows; and every shape's points are numbered densely.
   */
  lemma RoutedShapes(tripOrder: seq<string>, stopTimes: seq<Row>, stops: seq<Row>, toInt: string -> int, router: Router,
                     shapeOf: string -> seq<ShapeRow>, generated: set<string>, written: seq<ShapeRow>)
    requires StopTimesReadable(stopTimes) && StopsReadable(stops)
    requires Routable(tripOrder, stopTimes, stops)
    requires Labelled(shapeOf) && AllDense(shapeOf) && Routes(shapeOf, stopTimes, stops, toInt, router)
    requires Progress(generated, written) == ShapesAfter(tripOrder, |tripOrder|, shapeOf)
    ensures generated == ShapeIdsOf(tripOrder)
    ensures forall j :: 0 <= j < |tripOrder| && FirstOfShape(tripOrder, j) ==>
              RowsOfShape(written, ShapeId(tripOrder[j])) == ShapeOfTrip(tripOrder[j], stopTimes, stops, toInt, router)
    ensures forall s :: s !in generated ==> RowsOfShape(written, s) == []
    ensures forall s :: Dense(RowsOfShape(written, s))
  {
    var n := |tripOrder|;
    assert tripOrder[..n] == tripOrder;
    forall j | 0 <= j < n && FirstOfShape(tripOrder, j)
      ensures RowsOfShape(written, ShapeId(tripOrder[j])) == ShapeOfTrip(tripOrder[j], stopTimes, stops, toInt, router)
    {
      ShapeWrittenOnce(tripOrder, n, shapeOf, j);
    }
    forall s | s !in generated
      ensures RowsOfShape(written, s) == []
    {
      UngeneratedShapeHasNoRows(tripOrder, n, shapeOf, s);
    }
    forall s
      ensures Dense(RowsOfShape(written, s))
    {
      ShapesAreDense(tripOrder, n, shapeOf, s);
    }
  }

  /**
   One pass of the shape loop on trip `i` (lines 177-216): skips a trip whose
   shape id was generated already; otherwise requests the route through the
   trip's stops and appends the rows of the returned polyline. Starting from
   the progress after the trips before `i`, it reaches the progress after `i`.
   */
  method VisitTrip(tripOrder: seq<string>, i: nat, generated: set<string>, written: seq<ShapeRow>,
                   stopTimes: seq<Row>, stops: seq<Row>, toInt: string -> int, router: Router,
                   ghost shapeOf: string -> seq<ShapeRow>)
    returns (generated': set<string>, written': seq<ShapeRow>)
    requires i < |tripOrder| && StopTimesReadable(stopTimes) && StopsReadable(stops)
    requires Routable(tripOrder, stopTimes, stops) && Routes(shapeOf, stopTimes, stops, toInt, router)
    requires Progress(generated, written) == ShapesAfter(tripOrder, i, shapeOf)
    ensures Progress(generated', written') == ShapesAfter(tripOrder, i + 1, shapeOf)
  {
    var tripId := tripOrder[i];
    var shapeId := ShapeId(tripId);
    if shapeId in generated {
      return generated, written;
    }
    FirstOfShapeIffNew(tripOrder, i, generated);
    var request := RouteRequest(tripId, stopTimes, stops, toInt);
    var points := router(request);
    generated' := generated + {shapeId};
    written' := written + ShapeRows(shapeId, points);
  }

  /**
   The shape loop (lines 175-216). Trips are visited in `tripOrder`, the
   iteration order of the trip-id list; a trip whose shape id was already
   generated is skipped. Returns the set of generated shape ids and the
   shapes.txt rows written.
   */
  method GenerateShapes(tripOrder: seq<string>, stopTimes: seq<Row>, stops: seq<Row>,
                        toInt: string -> int, router: Router)
    returns (generated: set<string>, written: seq<ShapeRow>)
    requires StopTimesReadable(stopTimes) && StopsReadable(stops)
    requires Routable(tripOrder, stopTimes, stops)
    ensures generated == ShapeIdsOf(tripOrder)
    ensures forall j :: 0 <= j < |tripOrder| && FirstOfShape(tripOrder, j) ==>
              RowsOfShape(written, ShapeId(tripOrder[j])) == ShapeOfTrip(tripOrder[j], stopTimes, stops, toInt, router)
    ensures forall s :: s !in generated ==> RowsOfShape(written, s) == []
    ensures forall s :: Dense(RowsOfShape(written, s))
  {
    ShapeOfIsWellFormed(stopTimes, stops, toInt, router);
    ghost var shapeOf :| Labelled(shapeOf) && AllDense(shapeOf) && Routes(shapeOf, stopTimes, stops, toInt, router);
    generated, written := {}, [];
    var i := 0;
    while i < |tripOrder|
      invariant i <= |tripOrder|
      invariant Progress(generated, written) == ShapesAfter(tripOrder, i, shapeOf)
    {
      generated, written := VisitTrip(tripOrder, i, generated, written, stopTimes, stops, toInt, router, shapeOf);
      i := i + 1;
    }
    RoutedShapes(tripOrder, stopTimes, stops, toInt, router, shapeOf, generated, written);
  }
}
