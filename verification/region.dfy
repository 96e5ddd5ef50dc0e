/**
 The region filter: stops whose coordinates lie inside the fixed bounding
 box of Galicia (build_static_feed.py, `BOUNDS` and `get_stops_in_bounds`).
 */
module Region {
  import opened Rows
  import Seqs

  const South: real := 41.820455
  const North: real := 43.937462
  const West: real := -9.437256
  const East: real := -6.767578

  /** Closed-interval test on both axes. */
  predicate InBounds(lat: real, lon: real) {
    South <= lat <= North && West <= lon <= East
  }

  /** The stop's parsed coordinates lie inside the box; `toReal` stands for Python's `float`. */
  predicate StopInBounds(stop: Row, toReal: string -> real) {
    && "stop_lat" in stop
    && "stop_lon" in stop
    && InBounds(toReal(stop["stop_lat"]), toReal(stop["stop_lon"]))
  }

  /** Every point of the box, its edges and corners included, belongs to the region; a coordinate beyond any edge does not. */
  lemma BoundsAreClosed(lat: real, lon: real)
    ensures InBounds(South, West) && InBounds(North, East)
    ensures InBounds(South, East) && InBounds(North, West)
    ensures South <= lat <= North && West <= lon <= East ==> InBounds(lat, lon)
    ensures lat < South || North < lat || lon < West || East < lon ==> !InBounds(lat, lon)
  {
  }

  /** The stops of `stops` inside the region, in input order, each kept row unchanged. */
  function StopsInBounds(stops: seq<Row>, toReal: string -> real): (r: seq<Row>)
    requires HasField(stops, "stop_lat") && HasField(stops, "stop_lon")
    ensures Seqs.IsSubsequence(r, stops)
    ensures forall i :: 0 <= i < |r| ==> StopInBounds(r[i], toReal) && r[i] in stops
    ensures forall stop :: multiset(r)[stop] == if StopInBounds(stop, toReal) then multiset(stops)[stop] else 0
    ensures forall i :: 0 <= i < |stops| ==> (stops[i] in r <==> StopInBounds(stops[i], toReal))
  {
    var p := (stop: Row) => StopInBounds(stop, toReal);
    Seqs.FilterMembership(p, stops);
    Seqs.Filter(p, stops)
  }
}
