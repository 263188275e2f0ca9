/**
 The parsed GPX object model the exporter walks: a document holds tracks, a
 track holds segments, a segment holds points.

 Everything the GPX library computes (per-track moving data, time bounds and
 geographic bounds, per-point speed) is carried here as a value supplied with
 the document; the exporter only reads these values.
 */
module Gpx {

  datatype Option<+T> = None | Some(value: T)

  /** A timestamp as the GPX library reports it; the exporter only copies it. */
  datatype Instant = Instant(micros: int)

  /** A trackpoint. `speed` is what the library's `segment.get_speed(i)` gives
      for this point, in metres per second, or `None` when it gives nothing. */
  datatype Point = Point(
    latitude: real,
    longitude: real,
    elevation: Option<real>,
    time: Option<Instant>,
    speed: Option<real>)

  datatype Segment = Segment(points: seq<Point>)

  /** The two fields of the library's moving data that the exporter reads. */
  datatype MovingData = MovingData(movingTime: real, movingDistance: real)

  datatype TimeBounds = TimeBounds(startTime: Option<Instant>, endTime: Option<Instant>)

  datatype GeoBounds = GeoBounds(
    minLatitude: real,
    maxLatitude: real,
    minLongitude: real,
    maxLongitude: real)

  /** A track with its library-computed aggregates; `bounds` is `None` when the
      library reports no bounds object. */
  datatype Track = Track(
    name: Option<string>,
    segments: seq<Segment>,
    moving: MovingData,
    timeBounds: TimeBounds,
    bounds: Option<GeoBounds>)

  datatype Doc = Doc(name: Option<string>, tracks: seq<Track>)

  /** One entry of the library's per-document points data: which track and
      segment it says the point belongs to, and its distance from the start. */
  datatype PointData = PointData(trackNo: int, segmentNo: int, distanceFromStart: real)

  /** Number of points in a list of segments. */
  function SegmentsPoints(segments: seq<Segment>): nat
  {
    if |segments| == 0 then 0 else |segments[0].points| + SegmentsPoints(segments[1..])
  }

  /** Number of points in a list of tracks. */
  function TracksPoints(tracks: seq<Track>): nat
  {
    if |tracks| == 0 then 0 else SegmentsPoints(tracks[0].segments) + TracksPoints(tracks[1..])
  }

  /** Number of points in the document: the sum, over tracks and over their
      segments, of the segment's point count. */
  function TotalPoints(doc: Doc): nat
  {
    TracksPoints(doc.tracks)
  }

  /** The position of one point: track index, segment index within the track,
      point index within the segment, all 0-based. */
  datatype PointRef = PointRef(track: nat, segment: nat, point: nat)

  /** `r` names a point that exists in `doc`. */
  predicate Valid(doc: Doc, r: PointRef)
  {
    && r.track < |doc.tracks|
    && r.segment < |doc.tracks[r.track].segments|
    && r.point < |doc.tracks[r.track].segments[r.segment].points|
  }

  function PointAt(doc: Doc, r: PointRef): Point
    requires Valid(doc, r)
  {
    doc.tracks[r.track].segments[r.segment].points[r.point]
  }

  /** Document order: by track, then segment, then point. */
  predicate Before(a: PointRef, b: PointRef)
  {
    || a.track < b.track
    || (a.track == b.track && a.segment < b.segment)
    || (a.track == b.track && a.segment == b.segment && a.point < b.point)
  }

  /** `s` lists positions in strictly increasing document order. */
  ghost predicate Sorted(s: seq<PointRef>)
  {
    forall j1, j2 :: 0 <= j1 < j2 < |s| ==> Before(s[j1], s[j2])
  }
}
