# GPX to CSV export, modelled in Dafny

The converter reads GPX files (tracks of segments of trackpoints) and writes,
for each input file, one CSV file: a header row of 17 column names, then one
row per trackpoint, tracks first, then segments within a track, then points
within a segment. Each row repeats its track's name and library-computed
aggregates, gives the 0-based index of its segment within the track, the
point's own values, its speed in km/h, and a distance from start that is
looked up by the point's index in the document's points data, filtered to the
point's track and segment. The output file name is the input name cut at its
first dot, followed by `.csv`.

The model has five modules:

- `Filenames` (`filenames.dfy`): `drop_extension` as Python's `split('.')[0]`,
  with `Split` modelled after `str.split` and proved against its inverse
  `Join`; the cut-at-first-dot characterisation; the output name.
- `Gpx` (`gpx.dfy`): the document, track, segment and point datatypes. The
  per-track and per-point values the GPX library computes (moving data, time
  bounds, geographic bounds, per-point speed) are fields of `Track` and
  `Point`; the library's points data is the separate `pointsData` argument
  of `ToCsv`. Also the point positions `PointRef` and document order
  `Before`.
- `Traversal` (`traversal.dfy`): `Positions`, the reference list of all point
  positions in document order, proved sorted, complete and of the right
  length.
- `Export` (`export.dfy`): the row of one point, the failures that can stop
  the export, and `ToCsv`, written as three nested recursions that follow the
  three nested loops of `to_csv`; each recursion is proved to write the rows
  of its part of `Positions` in order, up to the first failure.
- `ExportProperties` (`export_properties.dfy`): the promises about the
  written file, stated directly on `ToCsv`: when it succeeds, how many rows,
  which point each row describes, the constant track columns, the segment
  index, and where a failed export stops.

Writing a row evaluates, in order, the speed conversion (`None * 60` raises
`TypeError` when the library gives no speed), the bounds fields (an
`AttributeError` when the library gives no bounds object) and the points-data
lookup (an `IndexError` when the filtered list is shorter than the segment).
The model keeps all three as `Failure` values. The first one stops the export,
and the rows already written stay in the file.

## Model

| member | source | states |
|---|---|---|
| `Filenames.Split` | gpx_to_csv.py:70 | `str.split('.')` yields one more field than there are dots, and no field contains a dot |
| `Filenames.SplitJoin` | gpx_to_csv.py:70 | joining the split fields with the separator gives back the original name |
| `Filenames.JoinSplit` | gpx_to_csv.py:70 | splitting a join of dot-free fields gives back those fields |
| `Filenames.DropExtension` | gpx_to_csv.py:68-70 | `drop_extension` returns a prefix of the name that contains no dot and ends at the end of the name or just before its first dot |
| `Filenames.FirstDotCutUnique` | gpx_to_csv.py:70 | only one prefix is cut at the first dot, so the characterisation above fixes the result |
| `Filenames.DropExtensionUnchangedIff` | gpx_to_csv.py:70 | a name comes back unchanged if and only if it contains no dot |
| `Filenames.DropExtensionIdempotent` | gpx_to_csv.py:70 | dropping the extension twice equals dropping it once |
| `Filenames.DropExtensionExamples` | gpx_to_csv.py:70 | `track.gpx` gives `track`, `a.b.gpx` gives `a` (first dot, not last), `.gpx` gives the empty name, `a.gpx` and `a.b.gpx` give the same stem |
| `Filenames.TargetFileName` | gpx_to_csv.py:89 | the output name ends in `.csv`, has exactly one dot, splits into the stem and `csv`, and its stem is the input's stem |
| `Traversal.SegmentPositions` | gpx_to_csv.py:44-46 | the positions of the points of the remaining segments of a track: one per point, all in that track, strictly increasing |
| `Traversal.TrackPositions` | gpx_to_csv.py:39-46 | the positions of the points of the remaining tracks: one per point, all existing, strictly increasing |
| `Traversal.Positions` | gpx_to_csv.py:39-46 | document order lists as many positions as the document has points, each naming an existing point, strictly increasing by track, then segment, then point |
| `Traversal.PositionsExactlyValid` | gpx_to_csv.py:39-46 | a position is listed if and only if it names a point of the document |
| `Export.MsToKmh` | gpx_to_csv.py:10-12 | the km/h value is 3.6 times the m/s speed, and dividing it by 3.6 gives the speed back |
| `Export.Header` | gpx_to_csv.py:17-37 | the header row has one text cell per column name, in the order of the 17 names |
| `Export.TrackData` | gpx_to_csv.py:40 | the track's points data is no longer than the points data, and every entry it keeps is numbered with that track |
| `Export.TrackDataCounts` | gpx_to_csv.py:40 | the track's points data keeps each entry numbered with that track as often as the document's points data holds it, and no other entry |
| `Export.TrackDataAppend` | gpx_to_csv.py:40 | filtering by track distributes over concatenation, so kept entries keep their original order |
| `Export.SegmentData` | gpx_to_csv.py:45 | the segment's points data is no longer than the track's, and every entry it keeps is numbered with that segment |
| `Export.SegmentDataCounts` | gpx_to_csv.py:45 | the segment's points data keeps each of the track's entries numbered with that segment as often as before, and no other entry |
| `Export.SegmentDataAppend` | gpx_to_csv.py:45 | filtering by segment distributes over concatenation, so kept entries keep their original order |
| `Export.SegmentPointsData` | gpx_to_csv.py:40-45 | the list a point's distance from start is read from is no longer than the points data, and every entry in it is numbered with the point's track and segment |
| `Export.RowFailure` | gpx_to_csv.py:47-64 | a row fails with `TypeError` exactly when the point has no speed; with `AttributeError` exactly when it has a speed but the track has no bounds; with `IndexError` exactly when both are present and the point's index is past the end of its segment's points data; so the speed is checked first, then the bounds, then the lookup |
| `Export.TrackCells` | gpx_to_csv.py:48-57 | the ten track-level cells, each under its column name: gpx name, track name, moving time and distance, start and end time, then maximum latitude, maximum longitude, minimum latitude, minimum longitude |
| `Export.RowAt` | gpx_to_csv.py:47-65 | a point's row is as wide as the header and each cell sits under its column name: its track's cells, the segment index, the point's latitude, longitude, elevation and time, its speed converted to km/h, and the distance from start from the filtered points data at the point's index |
| `Export.ThenWritesInOrder` | gpx_to_csv.py:39-46 | writing one part and then, if nothing failed, the next, writes the rows of both parts in order up to the first failure |
| `Export.PointRows` | gpx_to_csv.py:46-65 | the inner loop writes the rows of the segment's points in point order, up to the first point whose row cannot be built |
| `Export.SegmentRows` | gpx_to_csv.py:44-65 | the middle loop writes the rows of the track's segments in segment order, up to the first failure |
| `Export.TrackRows` | gpx_to_csv.py:39-65 | the outer loop writes the rows of the tracks in track order, up to the first failure |
| `Export.ToCsv` | gpx_to_csv.py:15-65 | the file holds the header row of the 17 column names, then the rows of the points in document order, each built from its point, up to the first point whose row fails |
| `ExportProperties.ToCsvSucceedsIff` | gpx_to_csv.py:46-65 | the export finishes without an exception if and only if every point's row can be built |
| `ExportProperties.ToCsvRowCount` | gpx_to_csv.py:37-46 | a finished export writes exactly one data row per point of the document; a failed one writes fewer |
| `ExportProperties.ToCsvEveryPointHasItsRow` | gpx_to_csv.py:39-65 | after a finished export every point has its row, at its place in document order |
| `ExportProperties.ToCsvStopsAtFirstFailure` | gpx_to_csv.py:39-65 | a failed export names an existing point whose row fails, and the rows written are exactly those of the points before it in document order |
| `ExportProperties.ToCsvRowColumns` | gpx_to_csv.py:46-65 | every data row is as wide as the header and carries its segment's index, its point's latitude, longitude, elevation and time, the speed converted to km/h, and the distance from start at the point's index in the filtered points data |
| `ExportProperties.ToCsvTrackColumnsConstant` | gpx_to_csv.py:41-57 | all rows of one track carry the same gpx name, track name, moving time and distance, time bounds and geographic bounds |
| `ExportProperties.ToCsvRowsInDocumentOrder` | gpx_to_csv.py:39-58 | an earlier row belongs to an earlier track, an earlier segment of the same track, or an earlier point of the same segment; within a track the segment column never decreases |
| `ExportProperties.SegmentPointsDataSnoc` | gpx_to_csv.py:40-45 | appending an entry to the points data appends it to a segment's indexed list exactly when it is numbered with that track and segment |
| `ExportProperties.SegmentPointsDataSelects` | gpx_to_csv.py:40-45 | the list indexed for a segment is empty for empty points data, grows by an entry exactly when that entry is numbered with its track and segment, and so holds exactly those entries, each as often, in their original order |
| `ExportProperties.ToCsvSingleSegment` | gpx_to_csv.py:39-65 | a one-track, one-segment document whose rows can all be built exports one row per point, row `i` being exactly the row of point `i`, in segment 0, each with the distance from start at its own index |
| `ExportProperties.RowsBuildIffIndexInRange` | gpx_to_csv.py:47-64 | with every point's speed and its track's bounds present, a point's row can be built exactly when its index is inside its segment's points data |
| `ExportProperties.ToCsvSucceedsIffPointsDataCovers` | gpx_to_csv.py:40-64 | with every point's speed present and bounds present for every track that holds a point, the export finishes if and only if every segment's filtered points data has at least as many entries as the segment has points |

## Left out

- GPX parsing and every GPX-library computation (`gpxpy.parse`, `get_points_data`, `get_moving_data`, `get_time_bounds`, `get_bounds`, `get_speed`): the library's code is not part of this model. Their results are inputs: fields of `Track` and `Point`, and the `pointsData` argument.
- The moving/stopped speed-threshold algorithm, time bounds and geographic bounds: they are computed inside the GPX library, not in this repository's code.
- `MovingData` keeps only `moving_time` and `moving_distance`, the two fields the export reads.
- `ms_to_kmh` (gpx_to_csv.py:10-12) is modelled over exact reals as `speed * 60 * 60 / 1000`; floating-point rounding is not modelled.
- File handling and CSV serialisation (`open`, `csv.writer` quoting and number/date formatting): a row is a sequence of `Cell` values, and a missing value is the `Blank` cell that the CSV writer turns into an empty field. A timestamp is an `Instant` holding an integer count of microseconds, which the export only copies into its cell; date formatting is not modelled.
- The command-line driver (gpx_to_csv.py:73-93): argument parsing, the two directory assertions, directory listing, `os.path.join`, and the `print` calls are I/O. Only the output file name, `drop_extension(f) + '.csv'`, is modelled.

## What `to_csv` does

- It always writes the 17th column, `dist_from_start`, taken by position from the library's points data filtered to the point's track and segment (gpx_to_csv.py:40, 45, 64); it does not accumulate a distance itself.
- The per-point speed is the library's `get_speed(i)` converted to km/h (gpx_to_csv.py:47); it is not recomputed from neighbouring points.
- Because of the lookup by position, it can fail with an `IndexError` part-way through (gpx_to_csv.py:64); both the failure and the rows written before it are modelled.
