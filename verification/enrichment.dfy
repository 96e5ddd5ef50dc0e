/**
 Stop enrichment before stops.txt is written (build_static_feed.py:138-142):
 `stop_code` defaults to `stop_id`, then the stop's entry of the override
 table, keyed by stop id, is copied over the row field by field.
 */
module Enrichment {
  import opened Rows

  /** Per-stop field overrides, keyed by stop id. */
  type Overrides = map<string, map<string, string>>

  /** The overrides registered for stop `id`; none when it has no entry. */
  function OverridesFor(overrides: Overrides, id: string): map<string, string> {
    if id in overrides then overrides[id] else map[]
  }

  /** One stop row after enrichment. */
  function EnrichStop(stop: Row, overrides: Overrides): (r: Row)
    requires "stop_id" in stop
    ensures var ov := OverridesFor(overrides, stop["stop_id"]);
      && r.Keys == stop.Keys + {"stop_code"} + ov.Keys
      && (forall k :: k in ov ==> r[k] == ov[k])
      && ("stop_code" !in ov ==> r["stop_code"] == stop["stop_id"])
      && (forall k :: k in stop && k != "stop_code" && k !in ov ==> r[k] == stop[k])
  {
    stop["stop_code" := stop["stop_id"]] + OverridesFor(overrides, stop["stop_id"])
  }

  /** Every stop row enriched, in order. */
  function EnrichStops(stops: seq<Row>, overrides: Overrides): (r: seq<Row>)
    requires HasField(stops, "stop_id")
    ensures |r| == |stops|
    ensures forall i :: 0 <= i < |r| ==> r[i] == EnrichStop(stops[i], overrides)
  {
    seq(|stops|, i requires 0 <= i < |stops| => EnrichStop(stops[i], overrides))
  }

  /**
   When all rows share the column set `header` and no override introduces a
   column outside `header` and `stop_code`, every enriched row has the same
   columns, so the first row's columns cover every row.
   */
  lemma EnrichedRowsShareHeader(stops: seq<Row>, overrides: Overrides, header: set<string>)
    requires "stop_id" in header
    requires forall i :: 0 <= i < |stops| ==> stops[i].Keys == header
    requires forall id :: id in overrides ==> overrides[id].Keys <= header + {"stop_code"}
    ensures forall i :: 0 <= i < |stops| ==> EnrichStops(stops, overrides)[i].Keys == header + {"stop_code"}
  {
  }

  /**
   Conversely, a stop whose override introduces a column that the first
   enriched row lacks leaves a row with a column outside the first row's.
   */
  lemma NewOverrideColumnEscapesHeader(stops: seq<Row>, overrides: Overrides, i: nat, k: string)
    requires HasField(stops, "stop_id")
    requires 0 < i < |stops|
    requires k in OverridesFor(overrides, stops[i]["stop_id"])
    requires k !in stops[0] && k != "stop_code" && k !in OverridesFor(overrides, stops[0]["stop_id"])
    ensures k in EnrichStops(stops, overrides)[i] && k !in EnrichStops(stops, overrides)[0]
  {
  }

  /** No override rewrites a stop's `stop_id`. */
  predicate KeepsStopIds(overrides: Overrides) {
    forall id :: id in overrides ==> "stop_id" !in overrides[id]
  }

  /**
   Enrichment only adds and overwrites columns, and keeps each stop's id when
   no override rewrites it: the enriched table still has every column the
   input rows share, and every reference to a stop still finds one.
   */
  lemma EnrichStopsKeepsReferences(a: seq<Row>, fa: string, stops: seq<Row>, overrides: Overrides, field: string)
    requires HasField(a, fa) && HasField(stops, "stop_id") && HasField(stops, field)
    requires KeepsStopIds(overrides)
    requires References(a, fa, stops, "stop_id")
    ensures HasField(EnrichStops(stops, overrides), field)
    ensures HasField(EnrichStops(stops, overrides), "stop_id")
    ensures References(a, fa, EnrichStops(stops, overrides), "stop_id")
  {
    var r := EnrichStops(stops, overrides);
    forall i | 0 <= i < |a|
      ensures HasRowWith(r, "stop_id", a[i][fa])
    {
      var k :| 0 <= k < |stops| && stops[k]["stop_id"] == a[i][fa];
      assert r[k]["stop_id"] == stops[k]["stop_id"];
    }
  }
}
