# Renfe → Galicia GTFS subset, modelled in Dafny

`build_static_feed.py` takes Renfe's long-distance GTFS feed and cuts it down
to the trains that serve Galicia:

- It keeps the stops inside a fixed latitude/longitude box.
- It keeps the trips that call at one of those stops, and the routes those
  trips run.
- It keeps every stop such a trip visits, enriched with `stop_code` and with
  per-stop overrides.
- It gives every kept trip a `shape_id` built from the first five characters
  of its trip id.
- It writes a `shapes.txt` polyline once per shape id. The polyline comes from
  asking a routing service for a path through the trip's stops, in stop
  sequence order.

This project models that core as pure functions over in-memory tables and
proves what each stage keeps, drops and writes.

Modelling conventions:

- A CSV table is a `seq<Row>` with `Row = map<string, string>`, in file order.
- The id lists the script builds from Python sets are Dafny `set`s.
- `float(...)` and `int(...)` become the parameters `toReal` and `toInt`.
- The routing service becomes a parameter `router`. It maps the request's
  coordinate string to the positions of the first route's geometry.
- The iteration order of `trip_ids` comes from a Python set, so it is
  unspecified. It is a parameter `tripOrder`, which enumerates exactly the
  selected trip ids.

Modules:

| module | file | models |
|---|---|---|
| `Rows` | rows.dfy | rows, columns and references between tables |
| `Seqs` | seqs.dfy | order-preserving filtering |
| `Text` | text.dfy | `str.join` and `str.split` on one character |
| `Region` | region.dfy | the Galicia bounding box and `get_stops_in_bounds` |
| `Subset` | subset.dfy | the three id collectors, `get_rows_by_ids`, and the first-row lookup |
| `Enrichment` | enrichment.dfy | `stop_code` and the stop overrides |
| `Sorting` | sorting.dfy | the stable sort by `stop_sequence` |
| `Shapes` | shapes.dfy | shape ids, the routing request, and the memoised shape loop with its `shapes.txt` rows |
| `Feed` | feed.dfy | the main block: selection, the four table writes, and shape generation |

## Model

| member | source | states |
|---|---|---|
| Region.BoundsAreClosed | build_static_feed.py:19-24 | Both ends of both ranges are inclusive: every point whose latitude lies between `SOUTH` and `NORTH` and whose longitude lies between `WEST` and `EAST`, edges and corners included, is inside the region. A latitude or longitude beyond any edge is outside. |
| Region.StopsInBounds | build_static_feed.py:29-38 | The region filter keeps exactly the stops whose parsed latitude and longitude lie in the closed box. Kept stops are unchanged and stay in input order. Each is kept as many times as it occurs. |
| Subset.Collect | build_static_feed.py:41-77 | A value is collected exactly when some row has it in the value column and has an id in the wanted set. |
| Subset.TripIdsForStops | build_static_feed.py:41-51 | A trip id is collected exactly when some stop time of that trip calls at one of the given stops. |
| Subset.RoutesForTrips | build_static_feed.py:54-64 | A route id is collected exactly when some trip row with a wanted trip id names that route. |
| Subset.StopsOfTrips | build_static_feed.py:67-77 | A stop id is collected exactly when some stop time of a wanted trip calls at it. |
| Subset.RowsByIds | build_static_feed.py:80-90 | Selecting rows by id keeps, in file order and unchanged, exactly the rows whose id is wanted, each as often as in the file. No other row survives. |
| Subset.KeptRowsAreCollected | build_static_feed.py:67-90 | A row selected by id carries, in any column, a value that the matching collector gathers. |
| Subset.RowsByIdsKeepsReferences | build_static_feed.py:80-90 | Selecting rows of a referencing table keeps every reference of the surviving rows resolvable. |
| Subset.RowsByIdsKeepsReferenced | build_static_feed.py:80-90 | Selecting the referenced table by the ids that are referenced keeps every reference resolvable. |
| Subset.FirstRowWithId | build_static_feed.py:191 | The lookup `[...][0]` returns the first row of the table that carries the id. |
| Enrichment.EnrichStop | build_static_feed.py:138-142 | An enriched stop has its own columns, plus `stop_code`, plus its override's columns. Override values win. Without an override for it, `stop_code` is the stop id. Every other column is unchanged. |
| Enrichment.EnrichStops | build_static_feed.py:138-142 | Every kept stop is enriched, in order, and none is added or dropped. |
| Enrichment.EnrichedRowsShareHeader | build_static_feed.py:138-147 | Suppose the stops share one column set and no override adds a column outside it. Then every enriched row has the first row's columns. |
| Enrichment.NewOverrideColumnEscapesHeader | build_static_feed.py:138-147 | An override that gives a later stop a column the first enriched row lacks leaves that row with a column outside the header taken from row 0. |
| Enrichment.EnrichStopsKeepsReferences | build_static_feed.py:138-142 | Overrides that never rewrite `stop_id` leave every reference to a stop resolvable after enrichment. |
| Sorting.Insert | build_static_feed.py:187 | Inserting into a sorted list keeps it sorted and adds exactly the inserted element. |
| Sorting.SortBy | build_static_feed.py:187 | The sorted stop times are in non-decreasing key order and are a permutation of the input. |
| Sorting.SortByIsStable | build_static_feed.py:187 | Rows with equal keys keep their input order, as Python's stable `list.sort` does. |
| Text.SplitJoin | build_static_feed.py:192-194 | Splitting the joined coordinate string on `;` gives back the pieces, when no piece contains `;`. |
| Shapes.ShapeId | build_static_feed.py:159 | A shape id is `Shape_` followed by a prefix of the trip id. The prefix is five characters long, or the whole trip id when it is shorter. |
| Shapes.SameShapeId | build_static_feed.py:159 | Two trips share a shape id exactly when their ids are equal, or when both ids have at least five characters and agree on the first five. |
| Shapes.ShapeIdsOfMembers | build_static_feed.py:175 | A shape id is among the shape ids of a list of trips exactly when one of the trips has it. |
| Shapes.ShapeIdsOfEnumeration | build_static_feed.py:175-182 | Visiting the trip ids in any order that lists exactly the selected trips gives the shape-id set that line 175 counts. |
| Shapes.TripStopTimes | build_static_feed.py:186-187 | A trip's stop sequence holds exactly that trip's stop-time rows, with their multiplicities, sorted by `stop_sequence`. Rows with the same `stop_sequence` keep their file order, as the stable `list.sort` leaves them. |
| Shapes.LookUpStop | build_static_feed.py:191 | The stop looked up for a stop time is the first row of the stops table that carries the stop time's `stop_id`, as `[0]` takes it. |
| Shapes.LookUpStops | build_static_feed.py:190-191 | Each stop time is matched, position by position, with the first stop row carrying its `stop_id`. |
| Shapes.RouteRequestDecodes | build_static_feed.py:186-194 | The routing request has one `;`-separated piece per stop time of the trip, in stop-sequence order. Each piece splits on `,` into the stop's longitude and latitude cells. This holds when coordinate cells contain neither separator. |
| Shapes.CoordinateDecodes | build_static_feed.py:192 | A stop's coordinate text has no `;` and splits on `,` into its `stop_lon` and `stop_lat` cells. |
| Shapes.ShapeRows | build_static_feed.py:210-216 | The rows for a polyline number its points 0, 1, 2, … under the shape id. Latitude is the point's second value and longitude its first. |
| Shapes.PointsOfShapeRows | build_static_feed.py:210-216 | Reading a shape's rows back as `[lon, lat]` pairs gives the routed polyline again. |
| Shapes.ShapeOfTrip | build_static_feed.py:186-216 | The rows generated for a trip all carry the trip's shape id and are numbered densely. |
| Shapes.FirstOfShapeIffNew | build_static_feed.py:179-182 | A trip is routed exactly when no earlier trip has its shape id. That is exactly when the memo `shape_ids_generated` does not hold the id yet. |
| Shapes.Step | build_static_feed.py:179-216 | One loop iteration adds the trip's shape id to the memo. It appends that trip's shape rows only when the trip is the first of its shape, and otherwise writes nothing. |
| Shapes.UngeneratedShapeHasNoRows | build_static_feed.py:179-216 | A shape id the loop has not generated has no rows in `shapes.txt`. |
| Shapes.NewShapeRows | build_static_feed.py:196-216 | The trip that generates a shape leaves exactly its own routed rows under that shape id. |
| Shapes.LaterTripKeepsShape | build_static_feed.py:179-182 | A later trip does not change the rows of a shape that an earlier trip generated. |
| Shapes.ShapeWrittenOnce | build_static_feed.py:179-216 | However many trips share a shape id, its rows in `shapes.txt` are exactly those routed for the first of them. |
| Shapes.ShapesAreDense | build_static_feed.py:210-216 | In `shapes.txt`, every shape's points are numbered 0, 1, 2, … in file order. |
| Shapes.RoutedShapes | build_static_feed.py:175-216 | After all trips, the memo holds every selected trip's shape id, and each such shape has the rows routed for its first trip. Other shape ids have no rows. Every shape is dense. |
| Shapes.VisitTrip | build_static_feed.py:179-216 | Running one iteration of the shape loop advances the memo and the written rows exactly as the reference `Step` does. |
| Shapes.GenerateShapes | build_static_feed.py:175-216 | The shape loop generates every selected trip's shape id. Each shape's rows are the routed rows of the first trip with that id. Nothing else is written, and every shape is numbered densely. |
| Feed.IdsOf | build_static_feed.py:117 | A value is an id of a table exactly when some row of the table carries it. |
| Feed.RegionStopIds | build_static_feed.py:114-117 | A stop id is selected exactly when a stop with that id lies inside the region. |
| Feed.Select | build_static_feed.py:114-121 | Selected stop, trip, route and visited-stop ids are each characterised by the rows that justify them. Trips are those calling at a region stop, routes those running a selected trip, visited stops those a selected trip calls at (line 136). |
| Feed.TripQualifies | build_static_feed.py:114-118 | A trip is selected exactly when one of its stop times names a stop that lies inside the region. |
| Feed.TripCallingInRegionQualifies | build_static_feed.py:114-118 | A stop time at a stop inside the region makes its trip selected. |
| Feed.QualifyingTripCallsInRegion | build_static_feed.py:114-118 | Every selected trip has a stop time at a stop inside the region. |
| Feed.AssignShapeIds | build_static_feed.py:158-159 | Each kept trip gains a `shape_id`, which is its trip's shape id. Every other column is unchanged. No trip is added or dropped. |
| Feed.StrayFields | build_static_feed.py:145-147 | No stray fields exist exactly when every row's columns lie within the header. Otherwise the stray fields are some row's columns outside the header. |
| Feed.WriteTable | build_static_feed.py:144-147 | A table is written exactly when it is non-empty and no row has a column outside the first row's. An empty table fails with the first-row `IndexError`. Otherwise `DictWriter` rejects the extra fields. |
| Feed.WriteAll | build_static_feed.py:144-170 | The four tables are written in the script's order. The run gets past them exactly when all four writes succeed. The error reported is that of the first write that fails, and every failure names one of the four files. |
| Feed.StopsWriteWithinHeader | build_static_feed.py:138-147 | When the kept stops share one column set and no override adds a column outside it or `stop_code`, `stops.txt` is written with every enriched stop. |
| Feed.StopsWriteRejectsNewOverrideColumn | build_static_feed.py:138-147 | When a later stop's override adds a column the first enriched stop lacks, writing `stops.txt` fails with `DictWriter`'s unknown-fields error. |
| Feed.NoTripsStopsAtStops | build_static_feed.py:114-147 | When no trip calls inside the region, the script stops at `stops.txt` with an empty table. |
| Feed.AssignShapeIdsKeepsReferences | build_static_feed.py:158-159 | Setting `shape_id` keeps every trip's reference to its route. |
| Feed.AssignShapeIdsKeepsReferenced | build_static_feed.py:158-159 | Setting `shape_id` keeps every stop time's reference to its trip. |
| Feed.ExtractKeepsConsistency | build_static_feed.py:136-170 | A consistent input gives a consistent output. Every written stop time names a written trip and a written stop, and every written trip names a written route. This needs overrides that never rewrite `stop_id`. |
| Feed.TripShapesAreGenerated | build_static_feed.py:157-182 | Every written trip's `shape_id` is one that the shape loop generates. |
| Feed.Assemble | build_static_feed.py:172-216 | The feed's shape ids are the shape ids of the selected trips, and every trip refers to one of them. Each shape's rows are routed for its first trip. No other shape has rows, and all shapes are dense. |
| Feed.Build | build_static_feed.py:114-216 | A run fails exactly when writing a table fails, and with that table's error. A successful run writes the extracted tables. The shape ids of the selected trips are the ones generated, every trip refers to one of them, and nothing else appears in `shapes.txt`. |

## Left out

- Downloading the feed, unzipping it, zipping the output, copying `agency.txt`, `calendar.txt` and `calendar_dates.txt` verbatim, and removing the temporary directories (lines 94-108, 124-130 and 218-230) are file-system and network I/O. They do not change the subset.
- Reading `stop_overrides.json` (lines 133-134) is I/O. Overrides are a map from stop id to a map from column to string. JSON values that are not strings, which `DictWriter` would print with `str`, are not modelled.
- CSV parsing and formatting are not modelled. Tables are already parsed rows, and a header is a set of column names, so the column order `DictWriter` writes in is not modelled.
- `float` and `int` are the parameters `toReal` and `toInt`. A cell they cannot parse, which would raise `ValueError`, is not modelled.
- Region.InBounds: compares exact reals against the decimal constants. A coordinate within binary-double rounding of an edge may be classified differently from Python's float comparison.
- The routing service is the parameter `router`, which is assumed to answer every request. A response without routes, where `data['routes'][0]` raises, and a failed HTTP request are not modelled. The URL prefix and the query string around the coordinates are not modelled either.
- Shapes.Routable: the `IndexError` that line 191 raises when a stop time names a stop missing from `stops.txt` is a precondition. It is stated only for the first trip of each shape, the only trip whose stops the script looks up.
- The progress `print`s, and `shape_ids_total`, which only feeds one of them, are left out. The set it counts is what `Shapes.ShapeIdsOfEnumeration` states.
- The `shapes.txt` header, written when `f.tell() == 0` (lines 203-208), is left out. The model keeps the data rows only.
- Shapes.GenerateShapes: states the rows of each shape id and that no other rows exist. It does not state the order in which different shapes' blocks follow each other, because that order depends on the unspecified set order.
- Feed.Build: does not restate that each shape's rows are the ones routed for its first trip. `Feed.Assemble` and `Shapes.GenerateShapes`, which `Build` calls, state it.
- Files left partly written when a later write fails are not modelled. `Feed.WriteAll` reports only the first failure.
- In the code, an empty selection makes the `[0]` header lookup raise, so the run stops. The model follows the code (`Feed.WriteTable`, `Feed.NoTripsStopsAtStops`).
- A feed that lacks a column the script reads (`stop_id`, `stop_lat`, `stop_lon`, `trip_id`, `route_id`, `stop_sequence`) makes the script raise `KeyError`. That error path is not modelled: `Feed.Readable` and `Shapes.StopTimesReadable` require the columns to be present.
