/**
 What the CSV export promises about the file it writes, stated directly in
 terms of the document's points: how many rows, in which order, which point
 each row describes, and when the export stops short.
 */
module ExportProperties {
  import opened Gpx
  import opened Traversal
  import opened Export

  /** The export succeeds exactly when the row of every point of the
      document can be built. */
  lemma ToCsvSucceedsIff(doc: Doc, pointsData: seq<PointData>)
    ensures ToCsv(doc, pointsData).failure.None?
        <==> forall r :: Valid(doc, r) ==> RowFailure(doc, pointsData, r).None?
  {
    var file := ToCsv(doc, pointsData);
    var ps := Positions(doc);
    assert WritesInOrder(doc, pointsData, ps, Written(file.body, file.failure));
    PositionsExactlyValid(doc);
    if file.failure.None? {
      forall r | Valid(doc, r)
        ensures RowFailure(doc, pointsData, r).None?
      {
        assert r in ps;
        var j :| 0 <= j < |ps| && ps[j] == r;
        assert j < |file.body|;
      }
    } else {
      var bad := ps[|file.body|];
      assert Valid(doc, bad) && RowFailure(doc, pointsData, bad).Some?;
    }
  }

  /** A successful export writes exactly one data row per point of the
      document, and a failed one writes fewer. */
  lemma ToCsvRowCount(doc: Doc, pointsData: seq<PointData>)
    ensures |ToCsv(doc, pointsData).body| <= TotalPoints(doc)
    ensures ToCsv(doc, pointsData).failure.None? ==> |ToCsv(doc, pointsData).body| == TotalPoints(doc)
    ensures ToCsv(doc, pointsData).failure.Some? ==> |ToCsv(doc, pointsData).body| < TotalPoints(doc)
  {
  }

  /** When the export succeeds, every point of the document has its row, at
      its place in document order. */
  lemma ToCsvEveryPointHasItsRow(doc: Doc, pointsData: seq<PointData>, r: PointRef)
    requires ToCsv(doc, pointsData).failure.None?
    requires Valid(doc, r)
    ensures RowFailure(doc, pointsData, r).None?
    ensures exists j :: 0 <= j < |ToCsv(doc, pointsData).body|
                     && Positions(doc)[j] == r
                     && ToCsv(doc, pointsData).body[j] == RowAt(doc, pointsData, r)
  {
    PositionsExactlyValid(doc);
    var ps := Positions(doc);
    var j :| 0 <= j < |ps| && ps[j] == r;
  }

  /** A failed export names an existing point whose row cannot be built, and
      the rows it wrote are exactly those of the points before that one in
      document order. */
  lemma ToCsvStopsAtFirstFailure(doc: Doc, pointsData: seq<PointData>)
    requires ToCsv(doc, pointsData).failure.Some?
    ensures var f := ToCsv(doc, pointsData).failure.value;
            && Valid(doc, f.at)
            && RowFailure(doc, pointsData, f.at) == Some(f.kind)
            && forall r :: Valid(doc, r) ==>
                 (Before(r, f.at) <==>
                  exists j :: 0 <= j < |ToCsv(doc, pointsData).body| && Positions(doc)[j] == r)
  {
    var file := ToCsv(doc, pointsData);
    var f := file.failure.value;
    var ps := Positions(doc);
    var n := |file.body|;
    PositionsExactlyValid(doc);
    forall r | Valid(doc, r)
      ensures Before(r, f.at) <==> exists j :: 0 <= j < n && ps[j] == r
    {
      var j :| 0 <= j < |ps| && ps[j] == r;
      if j < n {
        assert Before(ps[j], ps[n]);
      } else if j == n {
        assert !Before(r, f.at);
        assert forall j' :: 0 <= j' < n ==> Before(ps[j'], ps[j]);
      } else {
        assert Before(ps[n], ps[j]);
        assert forall j' :: 0 <= j' < n ==> Before(ps[j'], ps[j]);
      }
    }
  }

  /** Each data row is as wide as the header; it carries the index of its
      point's segment within the track, the point's own latitude, longitude,
      elevation and time, the speed in km/h, and the distance
      from start found at the point's index in its segment's points data. */
  lemma ToCsvRowColumns(doc: Doc, pointsData: seq<PointData>, j: nat)
    requires j < |ToCsv(doc, pointsData).body|
    ensures var file := ToCsv(doc, pointsData);
            var r := Positions(doc)[j];
            && Valid(doc, r)
            && |file.body[j]| == |file.header| == |Fields|
            && file.body[j][SegmentNumColumn] == Whole(r.segment)
            && file.body[j][LatColumn] == Decimal(PointAt(doc, r).latitude)
            && file.body[j][LongColumn] == Decimal(PointAt(doc, r).longitude)
            && file.body[j][EleColumn] == DecimalCell(PointAt(doc, r).elevation)
            && file.body[j][TimeColumn] == StampCell(PointAt(doc, r).time)
            && PointAt(doc, r).speed.Some?
            && file.body[j][SpeedColumn] == Decimal(MsToKmh(PointAt(doc, r).speed.value))
            && r.point < |SegmentPointsData(pointsData, r.track, r.segment)|
            && file.body[j][DistFromStartColumn]
               == Decimal(SegmentPointsData(pointsData, r.track, r.segment)[r.point].distanceFromStart)
  {
  }

  /** All rows of one track carry the same track-level columns. */
  lemma ToCsvTrackColumnsConstant(doc: Doc, pointsData: seq<PointData>)
    ensures var file := ToCsv(doc, pointsData);
            forall j1, j2 :: 0 <= j1 < |file.body| && 0 <= j2 < |file.body|
                             && Positions(doc)[j1].track == Positions(doc)[j2].track ==>
              file.body[j1][..TrackColumns] == file.body[j2][..TrackColumns]
  {
  }

  /** Rows come in document order: an earlier row describes a point of an
      earlier track, or an earlier segment of the same track, or an earlier
      point of the same segment; so within a track the segment column never
      decreases. */
  lemma ToCsvRowsInDocumentOrder(doc: Doc, pointsData: seq<PointData>, j1: nat, j2: nat)
    requires j1 < j2 < |ToCsv(doc, pointsData).body|
    ensures Before(Positions(doc)[j1], Positions(doc)[j2])
    ensures Positions(doc)[j1].track == Positions(doc)[j2].track ==>
              ToCsv(doc, pointsData).body[j1][SegmentNumColumn].n
              <= ToCsv(doc, pointsData).body[j2][SegmentNumColumn].n
  {
  }

  /** The points data indexed for segment `k` of track `t` is built as the
      two list comprehensions build it, scanning the points data left to
      right: nothing from an empty list, and appending an entry appends it to
      the result exactly when it is numbered with that track and that segment.
      So it holds exactly those entries, each as often, in their original
      order. */
  lemma SegmentPointsDataSelects(pointsData: seq<PointData>, p: PointData, t: nat, k: nat)
    ensures SegmentPointsData([], t, k) == []
    ensures SegmentPointsData(pointsData + [p], t, k)
         == SegmentPointsData(pointsData, t, k) + (if p.trackNo == t && p.segmentNo == k then [p] else [])
    ensures forall q :: multiset(SegmentPointsData(pointsData, t, k))[q]
                        == if q.trackNo == t && q.segmentNo == k then multiset(pointsData)[q] else 0
  {
    SegmentPointsDataSnoc(pointsData, p, t, k);
    TrackDataCounts(pointsData, t);
    SegmentDataCounts(TrackData(pointsData, t), k);
  }

  /** Appending an entry to the points data appends it to the list indexed
      for segment `k` of track `t` exactly when it is numbered with both. */
  lemma SegmentPointsDataSnoc(pointsData: seq<PointData>, p: PointData, t: nat, k: nat)
    ensures SegmentPointsData(pointsData + [p], t, k)
         == SegmentPointsData(pointsData, t, k) + (if p.trackNo == t && p.segmentNo == k then [p] else [])
  {
    var own := if p.trackNo == t then [p] else [];
    TrackDataAppend(pointsData, [p], t);
    assert [p][1..] == [];
    assert TrackData([p], t) == own;
    SegmentDataAppend(TrackData(pointsData, t), own, k);
    if p.trackNo == t {
      assert SegmentData(own, k) == (if p.segmentNo == k then [p] else []);
    }
  }

  /** A document of one track with one segment, whose points all have a
      speed, whose track has bounds if it holds any point, and whose points
      data covers the segment: one row per point, in point order (row `i` is
      the row of point `i`), each in segment 0 and carrying the distance from
      start at the point's own index. */
  lemma {:induction false} ToCsvSingleSegment(doc: Doc, pointsData: seq<PointData>)
    requires |doc.tracks| == 1 && |doc.tracks[0].segments| == 1
    requires |doc.tracks[0].segments[0].points| > 0 ==> doc.tracks[0].bounds.Some?
    requires forall i :: 0 <= i < |doc.tracks[0].segments[0].points| ==>
               doc.tracks[0].segments[0].points[i].speed.Some?
    requires |SegmentPointsData(pointsData, 0, 0)| >= |doc.tracks[0].segments[0].points|
    ensures var file := ToCsv(doc, pointsData);
            var points := doc.tracks[0].segments[0].points;
            && file.failure.None?
            && |file.body| == |points|
            && forall i :: 0 <= i < |points| ==>
                 && file.body[i] == RowAt(doc, pointsData, PointRef(0, 0, i))
                 && |file.body[i]| == |Fields|
                 && file.body[i][SegmentNumColumn] == Whole(0)
                 && file.body[i][DistFromStartColumn]
                    == Decimal(SegmentPointsData(pointsData, 0, 0)[i].distanceFromStart)
  {
    var file := ToCsv(doc, pointsData);
    var points := doc.tracks[0].segments[0].points;
    var ps := Positions(doc);
    assert SegmentPositions(doc, 0, 1) == [];
    assert TrackPositions(doc, 1) == [];
    assert ps == PointPositions(doc, 0, 0);
    assert file.failure.None?;
    forall i | 0 <= i < |points|
      ensures file.body[i] == RowAt(doc, pointsData, PointRef(0, 0, i))
      ensures |file.body[i]| == |Fields|
      ensures file.body[i][SegmentNumColumn] == Whole(0)
      ensures file.body[i][DistFromStartColumn]
              == Decimal(SegmentPointsData(pointsData, 0, 0)[i].distanceFromStart)
    {
      assert ps[i] == PointRef(0, 0, i);
    }
  }

  /** When every point has a speed and every track holding a point has
      bounds (a track without points never reads its bounds), the export
      succeeds exactly when, for every segment, the points data filtered to
      that track and segment has at least as many entries as the segment has
      points; otherwise the lookup by point index fails. */
  lemma ToCsvSucceedsIffPointsDataCovers(doc: Doc, pointsData: seq<PointData>)
    requires forall r :: Valid(doc, r) ==> PointAt(doc, r).speed.Some?
    requires forall r :: Valid(doc, r) ==> doc.tracks[r.track].bounds.Some?
    ensures ToCsv(doc, pointsData).failure.None?
        <==> forall t: nat, k: nat :: t < |doc.tracks| && k < |doc.tracks[t].segments| ==>
               |SegmentPointsData(pointsData, t, k)| >= |doc.tracks[t].segments[k].points|
  {
    RowsBuildIffIndexInRange(doc, pointsData);
    ToCsvSucceedsIff(doc, pointsData);
    var covers := forall t: nat, k: nat :: t < |doc.tracks| && k < |doc.tracks[t].segments| ==>
                    |SegmentPointsData(pointsData, t, k)| >= |doc.tracks[t].segments[k].points|;
    var allBuild := forall r :: Valid(doc, r) ==> RowFailure(doc, pointsData, r).None?;
    if allBuild {
      forall t: nat, k: nat | t < |doc.tracks| && k < |doc.tracks[t].segments|
        ensures |SegmentPointsData(pointsData, t, k)| >= |doc.tracks[t].segments[k].points|
      {
        var n := |doc.tracks[t].segments[k].points|;
        if n > 0 {
          var last := PointRef(t, k, n - 1);
          assert Valid(doc, last);
          assert RowFailure(doc, pointsData, last).None?;
        }
      }
    }
    assert covers ==> allBuild;
  }

  /** With every point's speed and its track's bounds present, a point's row
      can be built exactly when its index is within its segment's filtered
      points data. */
  lemma RowsBuildIffIndexInRange(doc: Doc, pointsData: seq<PointData>)
    requires forall r :: Valid(doc, r) ==> PointAt(doc, r).speed.Some?
    requires forall r :: Valid(doc, r) ==> doc.tracks[r.track].bounds.Some?
    ensures forall r :: Valid(doc, r) ==>
              (RowFailure(doc, pointsData, r).None?
               <==> r.point < |SegmentPointsData(pointsData, r.track, r.segment)|)
  {
  }
}
