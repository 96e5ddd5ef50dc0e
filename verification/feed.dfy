/**
 The subsetting pipeline of build_static_feed.py's main block (lines
 114-216): select the stops inside the region, the trips calling at them, the
 routes of those trips and every stop those trips visit; write the four
 subset tables; then generate one shape per distinct shape id.
 */
module Feed {
  import opened Rows
  import Seqs
  import Region
  import Subset
  import Enrichment
  import Shapes

  /** The four GTFS tables the subsetter reads and writes. */
  datatype Tables = Tables(stops: seq<Row>, routes: seq<Row>, trips: seq<Row>, stopTimes: seq<Row>)

  /** Why writing a table stops the script. */
  datatype Error =
    | EmptyTable(file: string)                       // `rows[0]` on an empty table (lines 145, 152, 161, 168)
    | UnknownFields(file: string, fields: set<string>) // a row with columns outside the header taken from the first row

  datatype Result<T> = Ok(value: T) | Err(error: Error)

  /** The columns each stage reads are present in every row. */
  predicate Readable(t: Tables) {
    && HasField(t.stops, "stop_id") && HasField(t.stops, "stop_lat") && HasField(t.stops, "stop_lon")
    && HasField(t.routes, "route_id")
    && HasField(t.trips, "trip_id") && HasField(t.trips, "route_id")
    && HasField(t.stopTimes, "trip_id") && HasField(t.stopTimes, "stop_id")
  }

  /** Every stop time names a trip and a stop of the tables, and every trip names a route. */
  predicate Consistent(t: Tables)
    requires Readable(t)
  {
    && References(t.stopTimes, "trip_id", t.trips, "trip_id")
    && References(t.stopTimes, "stop_id", t.stops, "stop_id")
    && References(t.trips, "route_id", t.routes, "route_id")
  }

  /** The values of column `field` over the rows of `rows`. */
  function IdsOf(rows: seq<Row>, field: string): (ids: set<string>)
    requires HasField(rows, field)
    ensures forall v :: v in ids <==> HasRowWith(rows, field, v)
  {
    var ids := set row | row in rows :: row[field];
    assert forall v :: v in ids <==> HasRowWith(rows, field, v) by {
      forall v ensures v in ids <==> HasRowWith(rows, field, v) {
        if v in ids {
          var row :| row in rows && row[field] == v;
          var i :| 0 <= i < |rows| && rows[i] == row;
        }
        if HasRowWith(rows, field, v) {
          var i :| 0 <= i < |rows| && rows[i][field] == v;
          assert rows[i] in rows;
        }
      }
    }
    ids
  }

  /** The id sets the main block computes before writing (lines 114-121, 136). */
  datatype Selection = Selection(stopIds: set<string>, tripIds: set<string>, routeIds: set<string>, visitedStopIds: set<string>)

  /** The ids of the stops inside the region (lines 114 and 117). */
  function RegionStopIds(stops: seq<Row>, toReal: string -> real): (ids: set<string>)
    requires HasField(stops, "stop_id") && HasField(stops, "stop_lat") && HasField(stops, "stop_lon")
    ensures forall s :: s in ids <==>
              exists k :: 0 <= k < |stops| && Region.StopInBounds(stops[k], toReal) && stops[k]["stop_id"] == s
  {
    var inRegion := Region.StopsInBounds(stops, toReal);
    assert HasField(inRegion, "stop_id");
    var ids := IdsOf(inRegion, "stop_id");
    assert forall s :: s in ids <==>
             exists k :: 0 <= k < |stops| && Region.StopInBounds(stops[k], toReal) && stops[k]["stop_id"] == s
    by {
      forall s
        ensures s in ids <==>
                exists k :: 0 <= k < |stops| && Region.StopInBounds(stops[k], toReal) && stops[k]["stop_id"] == s
      {
        RegionStopIdMember(stops, toReal, s);
      }
    }
    ids
  }

  /** A stop id is among those of the stops kept by the region filter exactly when a stop inside the region has it. */
  lemma RegionStopIdMember(stops: seq<Row>, toReal: string -> real, s: string)
    requires HasField(stops, "stop_id") && HasField(stops, "stop_lat") && HasField(stops, "stop_lon")
    ensures var inRegion := Region.StopsInBounds(stops, toReal);
            && HasField(inRegion, "stop_id")
            && (s in IdsOf(inRegion, "stop_id") <==>
                exists k :: 0 <= k < |stops| && Region.StopInBounds(stops[k], toReal) && stops[k]["stop_id"] == s)
  {
    var inRegion := Region.StopsInBounds(stops, toReal);
    assert HasField(inRegion, "stop_id");
    if s in IdsOf(inRegion, "stop_id") {
      var j :| 0 <= j < |inRegion| && inRegion[j]["stop_id"] == s;
      assert Region.StopInBounds(inRegion[j], toReal) && inRegion[j] in stops;
      var k :| 0 <= k < |stops| && stops[k] == inRegion[j];
    }
    if exists k :: 0 <= k < |stops| && Region.StopInBounds(stops[k], toReal) && stops[k]["stop_id"] == s {
      var k :| 0 <= k < |stops| && Region.StopInBounds(stops[k], toReal) && stops[k]["stop_id"] == s;
      assert stops[k] in inRegion;
      RowHasRowWith(inRegion, "stop_id", stops[k]);
    }
  }

  /**
   The id sets of lines 114-121 and 136: in-region stop ids, the trips that
   call at them, their routes, and every stop those trips visit.
   */
  function Select(input: Tables, toReal: string -> real): (sel: Selection)
    requires Readable(input)
    ensures forall s :: s in sel.stopIds <==>
              exists k :: 0 <= k < |input.stops| && Region.StopInBounds(input.stops[k], toReal) && input.stops[k]["stop_id"] == s
    ensures forall t :: t in sel.tripIds <==>
              exists i :: 0 <= i < |input.stopTimes| && input.stopTimes[i]["stop_id"] in sel.stopIds && input.stopTimes[i]["trip_id"] == t
    ensures forall r :: r in sel.routeIds <==>
              exists j :: 0 <= j < |input.trips| && input.trips[j]["trip_id"] in sel.tripIds && input.trips[j]["route_id"] == r
    ensures forall s :: s in sel.visitedStopIds <==>
              exists i :: 0 <= i < |input.stopTimes| && input.stopTimes[i]["trip_id"] in sel.tripIds && input.stopTimes[i]["stop_id"] == s
  {
    var stopIds := RegionStopIds(input.stops, toReal);
    var tripIds := Subset.TripIdsForStops(input.stopTimes, stopIds);
    Selection(stopIds, tripIds, Subset.RoutesForTrips(input.trips, tripIds), Subset.StopsOfTrips(input.stopTimes, tripIds))
  }

  /** A trip that calls at a stop inside the region qualifies. */
  lemma TripCallingInRegionQualifies(input: Tables, toReal: string -> real, i: nat, k: nat)
    requires Readable(input)
    requires i < |input.stopTimes| && k < |input.stops|
    requires input.stops[k]["stop_id"] == input.stopTimes[i]["stop_id"] && Region.StopInBounds(input.stops[k], toReal)
    ensures input.stopTimes[i]["trip_id"] in Select(input, toReal).tripIds
  {
    assert input.stopTimes[i]["stop_id"] in Select(input, toReal).stopIds;
  }

  /** A qualifying trip calls at a stop inside the region. */
  lemma QualifyingTripCallsInRegion(input: Tables, toReal: string -> real, t: string)
    requires Readable(input)
    requires t in Select(input, toReal).tripIds
    ensures exists i, k :: 0 <= i < |input.stopTimes| && 0 <= k < |input.stops|
              && input.stopTimes[i]["trip_id"] == t
              && input.stops[k]["stop_id"] == input.stopTimes[i]["stop_id"]
              && Region.StopInBounds(input.stops[k], toReal)
  {
    var sel := Select(input, toReal);
    var i :| 0 <= i < |input.stopTimes| && input.stopTimes[i]["stop_id"] in sel.stopIds && input.stopTimes[i]["trip_id"] == t;
    var k :| 0 <= k < |input.stops| && Region.StopInBounds(input.stops[k], toReal) && input.stops[k]["stop_id"] == input.stopTimes[i]["stop_id"];
  }

  /**
   A trip qualifies exactly when one of its stop times calls at a stop of
   the stop table that lies inside the region.
   */
  lemma TripQualifies(input: Tables, toReal: string -> real, t: string)
    requires Readable(input)
    ensures t in Select(input, toReal).tripIds <==>
              exists i, k :: 0 <= i < |input.stopTimes| && 0 <= k < |input.stops|
                && input.stopTimes[i]["trip_id"] == t
                && input.stops[k]["stop_id"] == input.stopTimes[i]["stop_id"]
                && Region.StopInBounds(input.stops[k], toReal)
  {
    if t in Select(input, toReal).tripIds {
      QualifyingTripCallsInRegion(input, toReal, t);
    }
    forall i, k | 0 <= i < |input.stopTimes| && 0 <= k < |input.stops|
                && input.stopTimes[i]["trip_id"] == t
                && input.stops[k]["stop_id"] == input.stopTimes[i]["stop_id"]
                && Region.StopInBounds(input.stops[k], toReal)
      ensures t in Select(input, toReal).tripIds
    {
      TripCallingInRegionQualifies(input, toReal, i, k);
    }
  }

  /** Each trip row with `shape_id` set to the trip's shape id (lines 158-159). */
  function AssignShapeIds(trips: seq<Row>): (r: seq<Row>)
    requires HasField(trips, "trip_id")
    ensures |r| == |trips|
    ensures forall i :: 0 <= i < |r| ==>
              && r[i].Keys == trips[i].Keys + {"shape_id"}
              && r[i]["shape_id"] == Shapes.ShapeId(trips[i]["trip_id"])
              && forall k :: k in trips[i] && k != "shape_id" ==> r[i][k] == trips[i][k]
  {
    seq(|trips|, i requires 0 <= i < |trips| => trips[i]["shape_id" := Shapes.ShapeId(trips[i]["trip_id"])])
  }

  /** The four tables as written: lines 136-142, 150, 157-159 and 166. */
  function Extracted(input: Tables, overrides: Enrichment.Overrides, toReal: string -> real): Tables
    requires Readable(input)
  {
    var sel := Select(input, toReal);
    var stops := Subset.RowsByIds(input.stops, "stop_id", sel.visitedStopIds);
    var trips := Subset.RowsByIds(input.trips, "trip_id", sel.tripIds);
    Tables(
      Enrichment.EnrichStops(stops, overrides),
      Subset.RowsByIds(input.routes, "route_id", sel.routeIds),
      AssignShapeIds(trips),
      Subset.RowsByIds(input.stopTimes, "trip_id", sel.tripIds))
  }

  /**
   The columns outside `header` of the first row that has any, or none when
   every row fits: what `DictWriter.writerows` reports when it meets a row
   with columns missing from its field names.
   */
  function StrayFields(rows: seq<Row>, header: set<string>): (fields: set<string>)
    ensures fields == {} <==> forall i :: 0 <= i < |rows| ==> rows[i].Keys <= header
    ensures fields != {} ==> exists i :: 0 <= i < |rows| && fields == rows[i].Keys - header &&
                               forall j :: 0 <= j < i ==> rows[j].Keys <= header
    decreases |rows|
  {
    if |rows| == 0 then {}
    else if rows[0].Keys <= header then
      var rest := rows[1..];
      assert forall i :: 0 <= i < |rest| ==> rest[i] == rows[i + 1];
      var fields := StrayFields(rest, header);
      assert fields != {} ==> exists i :: 0 <= i < |rows| && fields == rows[i].Keys - header &&
                                forall j :: 0 <= j < i ==> rows[j].Keys <= header
      by {
        if fields != {} {
          var i :| 0 <= i < |rest| && fields == rest[i].Keys - header && forall j :: 0 <= j < i ==> rest[j].Keys <= header;
          forall j | 0 < j < i + 1
            ensures rows[j].Keys <= header
          {
            assert rows[j] == rest[j - 1];
          }
          assert fields == rows[i + 1].Keys - header;
        }
      }
      fields
    else
      assert rows[0].Keys - header != {} by {
        var k :| k in rows[0].Keys && k !in header;
        assert k in rows[0].Keys - header;
      }
      rows[0].Keys - header
  }

  /**
   Writing a table with `csv.DictWriter`, whose field names are the columns
   of the first row: fails on an empty table, and on a row with a column the
   first row lacks; otherwise every row is written.
   */
  function WriteTable(file: string, rows: seq<Row>): (r: Result<seq<Row>>)
    ensures r.Ok? <==> |rows| > 0 && forall i :: 0 <= i < |rows| ==> rows[i].Keys <= rows[0].Keys
    ensures r.Ok? ==> r.value == rows
    ensures r == Err(EmptyTable(file)) <==> |rows| == 0
    ensures r.Err? ==> r.error.file == file
    ensures r.Err? && r.error.UnknownFields? ==>
              exists i :: 0 <= i < |rows| && r.error.fields == rows[i].Keys - rows[0].Keys != {}
  {
    if |rows| == 0 then Err(EmptyTable(file))
    else
      var stray := StrayFields(rows, rows[0].Keys);
      if stray == {} then Ok(rows) else Err(UnknownFields(file, stray))
  }

  /**
   The four writes in program order: stops.txt, routes.txt, trips.txt,
   stop_times.txt. The first failing write decides the error.
   */
  function WriteAll(out: Tables): (r: Result<Tables>)
    ensures r.Ok? <==> && WriteTable("stops.txt", out.stops).Ok?
                       && WriteTable("routes.txt", out.routes).Ok?
                       && WriteTable("trips.txt", out.trips).Ok?
                       && WriteTable("stop_times.txt", out.stopTimes).Ok?
    ensures r.Ok? ==> r.value == out
    ensures WriteTable("stops.txt", out.stops).Err? ==> r == Err(WriteTable("stops.txt", out.stops).error)
    ensures && WriteTable("stops.txt", out.stops).Ok?
            && WriteTable("routes.txt", out.routes).Err?
            ==> r == Err(WriteTable("routes.txt", out.routes).error)
    ensures && WriteTable("stops.txt", out.stops).Ok?
            && WriteTable("routes.txt", out.routes).Ok?
            && WriteTable("trips.txt", out.trips).Err?
            ==> r == Err(WriteTable("trips.txt", out.trips).error)
    ensures && WriteTable("stops.txt", out.stops).Ok?
            && WriteTable("routes.txt", out.routes).Ok?
            && WriteTable("trips.txt", out.trips).Ok?
            && WriteTable("stop_times.txt", out.stopTimes).Err?
            ==> r == Err(WriteTable("stop_times.txt", out.stopTimes).error)
    ensures r.Err? ==> r.error.file in {"stops.txt", "routes.txt", "trips.txt", "stop_times.txt"}
  {
    match WriteTable("stops.txt", out.stops)
    case Err(e) => Err(e)
    case Ok(_) =>
      match WriteTable("routes.txt", out.routes)
      case Err(e) => Err(e)
      case Ok(_) =>
        match WriteTable("trips.txt", out.trips)
        case Err(e) => Err(e)
        case Ok(_) =>
          match WriteTable("stop_times.txt", out.stopTimes)
          case Err(e) => Err(e)
          case Ok(_) => Ok(out)
  }

  /** The extraction of lines 136-170: the subset tables, written one after the other. */
  function Extract(input: Tables, overrides: Enrichment.Overrides, toReal: string -> real): Result<Tables>
    requires Readable(input)
  {
    WriteAll(Extracted(input, overrides, toReal))
  }

  /**
   When no trip calls inside the region, the script stops at the first
   write, on the empty stops table.
   */
  lemma NoTripsStopsAtStops(input: Tables, overrides: Enrichment.Overrides, toReal: string -> real)
    requires Readable(input)
    requires Select(input, toReal).tripIds == {}
    ensures Extract(input, overrides, toReal) == Err(EmptyTable("stops.txt"))
  {
    assert Select(input, toReal).visitedStopIds == {};
  }

  /**
   Writing the enriched stops succeeds when the kept stops share one column
   set and no override introduces a column outside it or `stop_code`.
   */
  lemma StopsWriteWithinHeader(stops: seq<Row>, overrides: Enrichment.Overrides, header: set<string>)
    requires "stop_id" in header && |stops| > 0
    requires forall i :: 0 <= i < |stops| ==> stops[i].Keys == header
    requires forall id :: id in overrides ==> overrides[id].Keys <= header + {"stop_code"}
    ensures WriteTable("stops.txt", Enrichment.EnrichStops(stops, overrides)) == Ok(Enrichment.EnrichStops(stops, overrides))
  {
    Enrichment.EnrichedRowsShareHeader(stops, overrides, header);
  }

  /**
   Writing the enriched stops raises `DictWriter`'s error for unknown fields
   when a later stop's override adds a column the first enriched row lacks.
   */
  lemma StopsWriteRejectsNewOverrideColumn(stops: seq<Row>, overrides: Enrichment.Overrides, i: nat, k: string)
    requires HasField(stops, "stop_id")
    requires 0 < i < |stops|
    requires k in Enrichment.OverridesFor(overrides, stops[i]["stop_id"])
    requires k !in stops[0] && k != "stop_code" && k !in Enrichment.OverridesFor(overrides, stops[0]["stop_id"])
    ensures WriteTable("stops.txt", Enrichment.EnrichStops(stops, overrides)).Err?
    ensures WriteTable("stops.txt", Enrichment.EnrichStops(stops, overrides)).error.UnknownFields?
  {
    Enrichment.NewOverrideColumnEscapesHeader(stops, overrides, i, k);
  }

  /** Setting `shape_id` keeps every other column, so references through other columns survive on both sides. */
  lemma AssignShapeIdsKeepsReferences(trips: seq<Row>, fa: string, b: seq<Row>, fb: string)
    requires HasField(trips, "trip_id") && HasField(trips, fa) && HasField(b, fb) && fa != "shape_id"
    requires References(trips, fa, b, fb)
    ensures HasField(AssignShapeIds(trips), fa)
    ensures References(AssignShapeIds(trips), fa, b, fb)
  {
    var r := AssignShapeIds(trips);
    assert forall i :: 0 <= i < |r| ==> r[i][fa] == trips[i][fa];
  }

  /** References into the trips table by a column other than `shape_id` survive setting `shape_id`. */
  lemma AssignShapeIdsKeepsReferenced(a: seq<Row>, fa: string, trips: seq<Row>, fb: string)
    requires HasField(a, fa) && HasField(trips, "trip_id") && HasField(trips, fb) && fb != "shape_id"
    requires References(a, fa, trips, fb)
    ensures HasField(AssignShapeIds(trips), fb)
    ensures References(a, fa, AssignShapeIds(trips), fb)
  {
    var r := AssignShapeIds(trips);
    forall i | 0 <= i < |a|
      ensures HasRowWith(r, fb, a[i][fa])
    {
      var k :| 0 <= k < |trips| && trips[k][fb] == a[i][fa];
      assert r[k][fb] == trips[k][fb];
    }
  }

  /**
   The written tables are consistent whenever the input is and no override
   rewrites a stop id: subsetting never leaves a stop time without its trip
   or stop, nor a trip without its route.
   */
  lemma ExtractKeepsConsistency(input: Tables, overrides: Enrichment.Overrides, toReal: string -> real)
    requires Readable(input) && Consistent(input) && Enrichment.KeepsStopIds(overrides)
    ensures Readable(Extracted(input, overrides, toReal))
    ensures Consistent(Extracted(input, overrides, toReal))
  {
    var sel := Select(input, toReal);
    var stops := Subset.RowsByIds(input.stops, "stop_id", sel.visitedStopIds);
    var trips := Subset.RowsByIds(input.trips, "trip_id", sel.tripIds);
    var stopTimes := Subset.RowsByIds(input.stopTimes, "trip_id", sel.tripIds);
    Subset.RowsByIdsKeepsField(input.stops, "stop_id", sel.visitedStopIds, "stop_lat");
    Subset.RowsByIdsKeepsField(input.stops, "stop_id", sel.visitedStopIds, "stop_lon");
    // stop times to trips
    Subset.RowsByIdsKeepsReferences(input.stopTimes, "trip_id", sel.tripIds, "trip_id", input.trips, "trip_id");
    Subset.RowsByIdsKeepsReferenced(stopTimes, "trip_id", input.trips, "trip_id", sel.tripIds);
    AssignShapeIdsKeepsReferenced(stopTimes, "trip_id", trips, "trip_id");
    // stop times to stops
    Subset.RowsByIdsKeepsReferences(input.stopTimes, "trip_id", sel.tripIds, "stop_id", input.stops, "stop_id");
    Subset.KeptRowsAreCollected(input.stopTimes, "trip_id", sel.tripIds, "stop_id");
    Subset.RowsByIdsKeepsReferenced(stopTimes, "stop_id", input.stops, "stop_id", sel.visitedStopIds);
    Enrichment.EnrichStopsKeepsReferences(stopTimes, "stop_id", stops, overrides, "stop_lat");
    Enrichment.EnrichStopsKeepsReferences(stopTimes, "stop_id", stops, overrides, "stop_lon");
    // trips to routes
    Subset.RowsByIdsKeepsReferences(input.trips, "trip_id", sel.tripIds, "route_id", input.routes, "route_id");
    Subset.KeptRowsAreCollected(input.trips, "trip_id", sel.tripIds, "route_id");
    Subset.RowsByIdsKeepsReferenced(trips, "route_id", input.routes, "route_id", sel.routeIds);
    AssignShapeIdsKeepsReferences(trips, "route_id", Subset.RowsByIds(input.routes, "route_id", sel.routeIds), "route_id");
  }

  /** Every trip row has a `shape_id`, and it is one of `shapeIds`. */
  predicate TripsReferToShapes(trips: seq<Row>, shapeIds: set<string>) {
    forall j :: 0 <= j < |trips| ==> "shape_id" in trips[j] && trips[j]["shape_id"] in shapeIds
  }

  /**
   Every trip written refers to a shape id the shape loop generates, when
   the loop visits the selected trips in any order.
   */
  lemma TripShapesAreGenerated(input: Tables, overrides: Enrichment.Overrides, toReal: string -> real, tripOrder: seq<string>)
    requires Readable(input)
    requires Seqs.Elements(tripOrder) == Select(input, toReal).tripIds
    ensures TripsReferToShapes(Extracted(input, overrides, toReal).trips, Shapes.ShapeIdsOf(tripOrder))
  {
    var sel := Select(input, toReal);
    var trips := Subset.RowsByIds(input.trips, "trip_id", sel.tripIds);
    var out := AssignShapeIds(trips);
    Shapes.ShapeIdsOfEnumeration(tripOrder, sel.tripIds);
    forall j | 0 <= j < |out|
      ensures "shape_id" in out[j] && out[j]["shape_id"] in Shapes.ShapeIdsOf(tripOrder)
    {
      assert trips[j]["trip_id"] in sel.tripIds;
    }
  }

  /** The subset feed: the four tables, the generated shape ids and the shapes.txt rows. */
  datatype Feed = Feed(tables: Tables, shapeIds: set<string>, shapes: seq<Shapes.ShapeRow>)

  /**
   The shape stage (lines 175-216) after the tables are written: runs the
   shape loop over `tripOrder`, an enumeration of the selected trips, and
   bundles its results with the tables.
   */
  method Assemble(out: Tables, tripIds: set<string>, tripOrder: seq<string>, stopTimes: seq<Row>, stops: seq<Row>,
                  toInt: string -> int, router: Shapes.Router)
    returns (feed: Feed)
    requires Shapes.StopTimesReadable(stopTimes) && Shapes.StopsReadable(stops)
    requires Shapes.Routable(tripOrder, stopTimes, stops)
    requires Seqs.Elements(tripOrder) == tripIds
    requires TripsReferToShapes(out.trips, Shapes.ShapeIdsOf(tripOrder))
    ensures feed.tables == out
    ensures feed.shapeIds == set t | t in tripIds :: Shapes.ShapeId(t)
    ensures TripsReferToShapes(feed.tables.trips, feed.shapeIds)
    ensures forall j :: 0 <= j < |tripOrder| && Shapes.FirstOfShape(tripOrder, j) ==>
              Shapes.RowsOfShape(feed.shapes, Shapes.ShapeId(tripOrder[j])) ==
              Shapes.ShapeOfTrip(tripOrder[j], stopTimes, stops, toInt, router)
    ensures forall s :: s !in feed.shapeIds ==> Shapes.RowsOfShape(feed.shapes, s) == []
    ensures forall s :: Shapes.Dense(Shapes.RowsOfShape(feed.shapes, s))
  {
    var generated, shapes := Shapes.GenerateShapes(tripOrder, stopTimes, stops, toInt, router);
    Shapes.ShapeIdsOfEnumeration(tripOrder, tripIds);
    feed := Feed(out, generated, shapes);
  }

  /**
   The main block (lines 114-216): extract and write the four tables, then
   run the shape loop over the selected trips in `tripOrder`, the iteration
   order of the trip-id list. A failing write stops the script before any
   shape is generated.
   */
  method Build(input: Tables, overrides: Enrichment.Overrides, toReal: string -> real, toInt: string -> int,
               tripOrder: seq<string>, router: Shapes.Router)
    returns (r: Result<Feed>)
    requires Readable(input) && Shapes.StopTimesReadable(input.stopTimes)
    requires Seqs.Elements(tripOrder) == Select(input, toReal).tripIds
    requires Extract(input, overrides, toReal).Ok? ==> Shapes.Routable(tripOrder, input.stopTimes, input.stops)
    ensures r.Ok? <==> Extract(input, overrides, toReal).Ok?
    ensures r.Err? ==> r.error == Extract(input, overrides, toReal).error
    ensures r.Ok? ==> r.value.tables == Extracted(input, overrides, toReal)
    ensures r.Ok? ==> r.value.shapeIds == set t | t in Select(input, toReal).tripIds :: Shapes.ShapeId(t)
    ensures r.Ok? ==> TripsReferToShapes(r.value.tables.trips, r.value.shapeIds)
    ensures r.Ok? ==> forall s :: s !in r.value.shapeIds ==> Shapes.RowsOfShape(r.value.shapes, s) == []
    ensures r.Ok? ==> forall s :: Shapes.Dense(Shapes.RowsOfShape(r.value.shapes, s))
  {
    var written := Extract(input, overrides, toReal);
    if written.Err? {
      return Err(written.error);
    }
    TripShapesAreGenerated(input, overrides, toReal, tripOrder);
    var feed := Assemble(written.value, Select(input, toReal).tripIds, tripOrder, input.stopTimes, input.stops, toInt, router);
    r := Ok(feed);
  }
}
