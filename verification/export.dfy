/**
 The CSV export of one parsed GPX document: a 17-name header, then one
 17-cell row per point, walking tracks, then segments, then points.

 Writing stops at the first point whose row cannot be built (the exception
 propagates out of the export); the rows written before it stay in the file.
 The exporter's traversal is proved against the reference order of
 `Traversal.Positions`.
 */
module Export {
  import opened Gpx
  import opened Traversal

  /** One CSV cell. `Blank` is how a missing (`None`) value is written. */
  datatype Cell = Blank | Text(text: string) | Decimal(value: real) | Whole(n: int) | Stamp(at: Instant)

  type Row = seq<Cell>

  /** The column names, in order. */
  const Fields: seq<string> := [
    "gpx_name", "trk_name", "trk_mov_time", "trk_mov_dist", "trk_start_time",
    "trk_end_time", "trk_max_lat", "trk_max_long", "trk_min_lat", "trk_min_long",
    "segment_num", "lat", "long", "ele", "time", "speed", "dist_from_start"]

  /** Columns `0 .. TrackColumns - 1` hold track-level values. */
  const TrackColumns: nat := 10
  const SegmentNumColumn: nat := 10
  const LatColumn: nat := 11
  const LongColumn: nat := 12
  const EleColumn: nat := 13
  const TimeColumn: nat := 14
  const SpeedColumn: nat := 15
  const DistFromStartColumn: nat := 16

  /** The exception that stops the export, and the point whose row raised it. */
  datatype FailureKind =
    | TypeError       // the library gave no speed, and km/h conversion multiplies None
    | AttributeError  // the library gave no bounds object, and a bound is read from it
    | IndexError      // the segment's filtered points data is shorter than the segment
  datatype Failure = Failure(kind: FailureKind, at: PointRef)

  /** Rows written so far, and the failure that stopped writing, if any. */
  datatype Written = Written(rows: seq<Row>, failure: Option<Failure>)

  /** A written CSV file: the header row, the data rows, and the failure that
      cut the data rows short, if any. */
  datatype CsvFile = CsvFile(header: Row, body: seq<Row>, failure: Option<Failure>)

  /** Conversion of metres per second to kilometres per hour: 3.6 times the
      speed, so that dividing by 3.6 gives the speed back. */
  function MsToKmh(speed: real): (kmh: real)
    ensures kmh == 3.6 * speed
    ensures kmh / 3.6 == speed
  {
    speed * 60.0 * 60.0 / 1000.0
  }

  function TextCell(s: Option<string>): Cell
  {
    match s
    case None => Blank
    case Some(v) => Text(v)
  }

  function DecimalCell(x: Option<real>): Cell
  {
    match x
    case None => Blank
    case Some(v) => Decimal(v)
  }

  function StampCell(i: Option<Instant>): Cell
  {
    match i
    case None => Blank
    case Some(v) => Stamp(v)
  }

  /** The header row: one text cell per column name. */
  function Header(): (h: Row)
    ensures |h| == |Fields|
    ensures forall j :: 0 <= j < |h| ==> h[j] == Text(Fields[j])
  {
    seq(|Fields|, j requires 0 <= j < |Fields| => Text(Fields[j]))
  }

  /** The points data of track `t`: the entries whose track number is `t`,
      in their original order (`TrackDataAppend`, `TrackDataCounts`). */
  function TrackData(pointsData: seq<PointData>, t: int): (kept: seq<PointData>)
    ensures |kept| <= |pointsData|
    ensures forall j :: 0 <= j < |kept| ==> kept[j].trackNo == t
  {
    if |pointsData| == 0 then []
    else
      (if pointsData[0].trackNo == t then [pointsData[0]] else []) + TrackData(pointsData[1..], t)
  }

  /** The entries of a track's points data whose segment number is `k`, in
      their original order (`SegmentDataAppend`, `SegmentDataCounts`). */
  function SegmentData(trackData: seq<PointData>, k: int): (kept: seq<PointData>)
    ensures |kept| <= |trackData|
    ensures forall j :: 0 <= j < |kept| ==> kept[j].segmentNo == k
  {
    if |trackData| == 0 then []
    else
      (if trackData[0].segmentNo == k then [trackData[0]] else []) + SegmentData(trackData[1..], k)
  }

  /** Filtering by track number distributes over concatenation, so the kept
      entries stay in the order they have in the points data. */
  lemma {:induction false} TrackDataAppend(a: seq<PointData>, b: seq<PointData>, t: int)
    ensures TrackData(a + b, t) == TrackData(a, t) + TrackData(b, t)
  {
    if |a| == 0 {
      assert a + b == b;
    } else {
      var here := if a[0].trackNo == t then [a[0]] else [];
      assert (a + b)[0] == a[0];
      assert (a + b)[1..] == a[1..] + b;
      assert TrackData(a + b, t) == here + TrackData(a[1..] + b, t);
      assert TrackData(a, t) == here + TrackData(a[1..], t);
      TrackDataAppend(a[1..], b, t);
    }
  }

  /** Filtering by segment number distributes over concatenation, so the kept
      entries stay in the order they have in the track's points data. */
  lemma {:induction false} SegmentDataAppend(a: seq<PointData>, b: seq<PointData>, k: int)
    ensures SegmentData(a + b, k) == SegmentData(a, k) + SegmentData(b, k)
  {
    if |a| == 0 {
      assert a + b == b;
    } else {
      var here := if a[0].segmentNo == k then [a[0]] else [];
      assert (a + b)[0] == a[0];
      assert (a + b)[1..] == a[1..] + b;
      assert SegmentData(a + b, k) == here + SegmentData(a[1..] + b, k);
      assert SegmentData(a, k) == here + SegmentData(a[1..], k);
      SegmentDataAppend(a[1..], b, k);
    }
  }

  /** The track's points data keeps each entry numbered with the track as
      often as the points data holds it, and no other entry. */
  lemma {:induction false} TrackDataCounts(pointsData: seq<PointData>, t: int)
    ensures forall p :: multiset(TrackData(pointsData, t))[p]
                        == if p.trackNo == t then multiset(pointsData)[p] else 0
  {
    if |pointsData| > 0 {
      assert pointsData == [pointsData[0]] + pointsData[1..];
      TrackDataCounts(pointsData[1..], t);
    }
  }

  /** A segment's points data keeps each entry numbered with the segment as
      often as the track's points data holds it, and no other entry. */
  lemma {:induction false} SegmentDataCounts(trackData: seq<PointData>, k: int)
    ensures forall p :: multiset(SegmentData(trackData, k))[p]
                        == if p.segmentNo == k then multiset(trackData)[p] else 0
  {
    if |trackData| > 0 {
      assert trackData == [trackData[0]] + trackData[1..];
      SegmentDataCounts(trackData[1..], k);
    }
  }

  /** The points data the row of a point of segment `k` of track `t` indexes into. */
  function SegmentPointsData(pointsData: seq<PointData>, t: nat, k: nat): (kept: seq<PointData>)
    ensures |kept| <= |pointsData|
    ensures forall j :: 0 <= j < |kept| ==> kept[j].trackNo == t && kept[j].segmentNo == k
  {
    var trackData := TrackData(pointsData, t);
    var kept := SegmentData(trackData, k);
    SegmentDataCounts(trackData, k);
    assert forall j :: 0 <= j < |kept| ==> kept[j] in multiset(kept) && kept[j] in trackData;
    kept
  }

  /** Why the row of point `r` cannot be built, checked in the order the row
      expression evaluates: the speed conversion first, then the bounds, then
      the points-data lookup. `None` when the row can be built. */
  function RowFailure(doc: Doc, pointsData: seq<PointData>, r: PointRef): (failure: Option<FailureKind>)
    requires Valid(doc, r)
    ensures failure == Some(TypeError) <==> PointAt(doc, r).speed.None?
    ensures failure == Some(AttributeError)
        <==> PointAt(doc, r).speed.Some? && doc.tracks[r.track].bounds.None?
    ensures failure == Some(IndexError)
        <==> && PointAt(doc, r).speed.Some?
             && doc.tracks[r.track].bounds.Some?
             && |SegmentPointsData(pointsData, r.track, r.segment)| <= r.point
  {
    if PointAt(doc, r).speed.None? then Some(TypeError)
    else if doc.tracks[r.track].bounds.None? then Some(AttributeError)
    else if r.point >= |SegmentPointsData(pointsData, r.track, r.segment)| then Some(IndexError)
    else None
  }

  /** The track-level cells shared by all rows of track `t`, each under the
      column name that describes it; note that the maximum latitude and
      longitude come before the minimum ones. */
  function TrackCells(doc: Doc, t: nat): (cells: Row)
    requires t < |doc.tracks| && doc.tracks[t].bounds.Some?
    ensures |cells| == TrackColumns
    ensures Fields[0] == "gpx_name" && cells[0] == TextCell(doc.name)
    ensures Fields[1] == "trk_name" && cells[1] == TextCell(doc.tracks[t].name)
    ensures Fields[2] == "trk_mov_time" && cells[2] == Decimal(doc.tracks[t].moving.movingTime)
    ensures Fields[3] == "trk_mov_dist" && cells[3] == Decimal(doc.tracks[t].moving.movingDistance)
    ensures Fields[4] == "trk_start_time" && cells[4] == StampCell(doc.tracks[t].timeBounds.startTime)
    ensures Fields[5] == "trk_end_time" && cells[5] == StampCell(doc.tracks[t].timeBounds.endTime)
    ensures Fields[6] == "trk_max_lat" && cells[6] == Decimal(doc.tracks[t].bounds.value.maxLatitude)
    ensures Fields[7] == "trk_max_long" && cells[7] == Decimal(doc.tracks[t].bounds.value.maxLongitude)
    ensures Fields[8] == "trk_min_lat" && cells[8] == Decimal(doc.tracks[t].bounds.value.minLatitude)
    ensures Fields[9] == "trk_min_long" && cells[9] == Decimal(doc.tracks[t].bounds.value.minLongitude)
  {
    var track := doc.tracks[t];
    var bounds := track.bounds.value;
    [ TextCell(doc.name),
      TextCell(track.name),
      Decimal(track.moving.movingTime),
      Decimal(track.moving.movingDistance),
      StampCell(track.timeBounds.startTime),
      StampCell(track.timeBounds.endTime),
      Decimal(bounds.maxLatitude),
      Decimal(bounds.maxLongitude),
      Decimal(bounds.minLatitude),
      Decimal(bounds.minLongitude) ]
  }

  /** The row of point `r`, each cell under the column name that describes
      it: the track's cells, the segment index, the point's own latitude,
      longitude, elevation and time, its speed in km/h, and the distance from
      start taken by position from the segment's filtered points data. */
  function RowAt(doc: Doc, pointsData: seq<PointData>, r: PointRef): (row: Row)
    requires Valid(doc, r) && RowFailure(doc, pointsData, r).None?
    ensures |row| == |Fields|
    ensures row[..TrackColumns] == TrackCells(doc, r.track)
    ensures Fields[SegmentNumColumn] == "segment_num" && row[SegmentNumColumn] == Whole(r.segment)
    ensures Fields[LatColumn] == "lat" && row[LatColumn] == Decimal(PointAt(doc, r).latitude)
    ensures Fields[LongColumn] == "long" && row[LongColumn] == Decimal(PointAt(doc, r).longitude)
    ensures Fields[EleColumn] == "ele" && row[EleColumn] == DecimalCell(PointAt(doc, r).elevation)
    ensures Fields[TimeColumn] == "time" && row[TimeColumn] == StampCell(PointAt(doc, r).time)
    ensures Fields[SpeedColumn] == "speed"
         && row[SpeedColumn] == Decimal(MsToKmh(PointAt(doc, r).speed.value))
    ensures Fields[DistFromStartColumn] == "dist_from_start"
    ensures row[DistFromStartColumn]
         == Decimal(SegmentPointsData(pointsData, r.track, r.segment)[r.point].distanceFromStart)
  {
    var point := PointAt(doc, r);
    TrackCells(doc, r.track) +
    [ Whole(r.segment),
      Decimal(point.latitude),
      Decimal(point.longitude),
      DecimalCell(point.elevation),
      StampCell(point.time),
      Decimal(MsToKmh(point.speed.value)),
      Decimal(SegmentPointsData(pointsData, r.track, r.segment)[r.point].distanceFromStart) ]
  }

  /** `w` is what writing the points at positions `ps` in turn leaves behind:
      the rows of a prefix of `ps`, each one built without failure; then either
      nothing else (all of `ps` written) or the failure of the next position. */
  ghost predicate WritesInOrder(doc: Doc, pointsData: seq<PointData>, ps: seq<PointRef>, w: Written)
  {
    && (forall j :: 0 <= j < |ps| ==> Valid(doc, ps[j]))
    && |w.rows| <= |ps|
    && (forall j :: 0 <= j < |w.rows| ==>
          RowFailure(doc, pointsData, ps[j]).None? && w.rows[j] == RowAt(doc, pointsData, ps[j]))
    && (w.failure.None? ==> |w.rows| == |ps|)
    && (w.failure.Some? ==>
          && |w.rows| < |ps|
          && w.failure.value.at == ps[|w.rows|]
          && RowFailure(doc, pointsData, ps[|w.rows|]) == Some(w.failure.value.kind))
  }

  /** Writing one part and, if it did not fail, the next. */
  function Then(first: Written, second: Written): Written
  {
    if first.failure.Some? then first else Written(first.rows + second.rows, second.failure)
  }

  lemma ThenWritesInOrder(doc: Doc, pointsData: seq<PointData>,
                          ps1: seq<PointRef>, w1: Written, ps2: seq<PointRef>, w2: Written)
    requires WritesInOrder(doc, pointsData, ps1, w1)
    requires WritesInOrder(doc, pointsData, ps2, w2)
    ensures WritesInOrder(doc, pointsData, ps1 + ps2, Then(w1, w2))
  {
    var ps := ps1 + ps2;
    if w1.failure.None? {
      var w := Then(w1, w2);
      forall j | 0 <= j < |w.rows|
        ensures RowFailure(doc, pointsData, ps[j]).None? && w.rows[j] == RowAt(doc, pointsData, ps[j])
      {
        if j >= |w1.rows| {
          assert ps[j] == ps2[j - |w1.rows|];
          assert w.rows[j] == w2.rows[j - |w1.rows|];
        }
      }
      if w2.failure.Some? {
        assert ps[|w.rows|] == ps2[|w2.rows|];
      }
    }
  }

  /** Failing on the first position writes nothing and reports that position. */
  lemma FailureWritesInOrder(doc: Doc, pointsData: seq<PointData>, ps: seq<PointRef>, kind: FailureKind)
    requires |ps| > 0 && forall j :: 0 <= j < |ps| ==> Valid(doc, ps[j])
    requires RowFailure(doc, pointsData, ps[0]) == Some(kind)
    ensures WritesInOrder(doc, pointsData, ps, Written([], Some(Failure(kind, ps[0]))))
  {
  }

  /** Writing the row of the first position and then the rest writes the
      rows of all positions in order, up to the first failure. */
  lemma RowThenWritesInOrder(doc: Doc, pointsData: seq<PointData>, ps: seq<PointRef>, rest: Written)
    requires |ps| > 0 && forall j :: 0 <= j < |ps| ==> Valid(doc, ps[j])
    requires RowFailure(doc, pointsData, ps[0]).None?
    requires WritesInOrder(doc, pointsData, ps[1..], rest)
    ensures WritesInOrder(doc, pointsData, ps, Then(Written([RowAt(doc, pointsData, ps[0])], None), rest))
  {
    var one := Written([RowAt(doc, pointsData, ps[0])], None);
    assert WritesInOrder(doc, pointsData, [ps[0]], one);
    ThenWritesInOrder(doc, pointsData, [ps[0]], one, ps[1..], rest);
    assert [ps[0]] + ps[1..] == ps;
  }

  /** The positions of points `i`, `i + 1`, ... of a segment: the first is
      point `i`, the others are those from `i + 1`, and all are valid. */
  lemma PointPositionsFrom(doc: Doc, t: nat, k: nat, i: nat)
    requires t < |doc.tracks| && k < |doc.tracks[t].segments|
    requires i < |doc.tracks[t].segments[k].points|
    ensures var ps := PointPositions(doc, t, k)[i..];
            && |ps| > 0 && ps[0] == PointRef(t, k, i)
            && ps[1..] == PointPositions(doc, t, k)[i + 1..]
            && forall j :: 0 <= j < |ps| ==> Valid(doc, ps[j])
  {
    var ps := PointPositions(doc, t, k)[i..];
    assert forall j :: 0 <= j < |ps| ==> ps[j] == PointRef(t, k, i + j);
  }

  /** The rows of points `i`, `i + 1`, ... of segment `k` of track `t`. */
  function PointRows(doc: Doc, pointsData: seq<PointData>, t: nat, k: nat, i: nat): (w: Written)
    requires t < |doc.tracks| && k < |doc.tracks[t].segments|
    requires i <= |doc.tracks[t].segments[k].points|
    ensures WritesInOrder(doc, pointsData, PointPositions(doc, t, k)[i..], w)
    decreases |doc.tracks[t].segments[k].points| - i
  {
    if i == |doc.tracks[t].segments[k].points| then Written([], None)
    else
      var r := PointRef(t, k, i);
      var ps := PointPositions(doc, t, k)[i..];
      PointPositionsFrom(doc, t, k, i);
      match RowFailure(doc, pointsData, r)
      case Some(kind) =>
        FailureWritesInOrder(doc, pointsData, ps, kind);
        Written([], Some(Failure(kind, r)))
      case None =>
        var rest := PointRows(doc, pointsData, t, k, i + 1);
        RowThenWritesInOrder(doc, pointsData, ps, rest);
        Then(Written([RowAt(doc, pointsData, r)], None), rest)
  }

  /** The rows of segments `k`, `k + 1`, ... of track `t`. */
  function SegmentRows(doc: Doc, pointsData: seq<PointData>, t: nat, k: nat): (w: Written)
    requires t < |doc.tracks| && k <= |doc.tracks[t].segments|
    ensures WritesInOrder(doc, pointsData, SegmentPositions(doc, t, k), w)
    decreases |doc.tracks[t].segments| - k
  {
    if k == |doc.tracks[t].segments| then Written([], None)
    else
      var here := PointRows(doc, pointsData, t, k, 0);
      var later := SegmentRows(doc, pointsData, t, k + 1);
      assert PointPositions(doc, t, k)[0..] == PointPositions(doc, t, k);
      ThenWritesInOrder(doc, pointsData, PointPositions(doc, t, k), here,
                        SegmentPositions(doc, t, k + 1), later);
      Then(here, later)
  }

  /** The rows of tracks `t`, `t + 1`, ... of the document. */
  function TrackRows(doc: Doc, pointsData: seq<PointData>, t: nat): (w: Written)
    requires t <= |doc.tracks|
    ensures WritesInOrder(doc, pointsData, TrackPositions(doc, t), w)
    decreases |doc.tracks| - t
  {
    if t == |doc.tracks| then Written([], None)
    else
      var here := SegmentRows(doc, pointsData, t, 0);
      var later := TrackRows(doc, pointsData, t + 1);
      ThenWritesInOrder(doc, pointsData, SegmentPositions(doc, t, 0), here,
                        TrackPositions(doc, t + 1), later);
      Then(here, later)
  }

  /** `to_csv`: the header, then the rows of the document's points in
      document order, up to the first point whose row cannot be built. */
  function ToCsv(doc: Doc, pointsData: seq<PointData>): (file: CsvFile)
    ensures file.header == Header()
    ensures WritesInOrder(doc, pointsData, Positions(doc), Written(file.body, file.failure))
  {
    var w := TrackRows(doc, pointsData, 0);
    CsvFile(Header(), w.rows, w.failure)
  }
}
