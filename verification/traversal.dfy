/**
 Document order: the sequence of point positions the exporter visits, tracks
 first, then segments within a track, then points within a segment. This is
 the reference against which the exporter's rows are proved.
 */
module Traversal {
  import opened Gpx

  /** Two sorted runs, every element of the first before every element of the
      second, make a sorted run. */
  lemma SortedAppend(a: seq<PointRef>, b: seq<PointRef>)
    requires Sorted(a) && Sorted(b)
    requires forall x, y :: x in a && y in b ==> Before(x, y)
    ensures Sorted(a + b)
  {
    var s := a + b;
    forall j1, j2 | 0 <= j1 < j2 < |s|
      ensures Before(s[j1], s[j2])
    {
      if j2 < |a| {
        assert s[j1] == a[j1] && s[j2] == a[j2];
      } else if j1 >= |a| {
        assert s[j1] == b[j1 - |a|] && s[j2] == b[j2 - |a|];
      } else {
        assert s[j1] in a && s[j2] in b;
      }
    }
  }

  /** The positions of the points of segment `k` of track `t`, in order. */
  function PointPositions(doc: Doc, t: nat, k: nat): seq<PointRef>
    requires t < |doc.tracks| && k < |doc.tracks[t].segments|
  {
    var n := |doc.tracks[t].segments[k].points|;
    seq(n, i requires 0 <= i < n => PointRef(t, k, i))
  }

  /** The positions of the points of segments `k`, `k + 1`, ... of track `t`:
      as many as those segments hold, all in track `t` at segment `k` or
      later, in document order. */
  function SegmentPositions(doc: Doc, t: nat, k: nat): (ps: seq<PointRef>)
    requires t < |doc.tracks| && k <= |doc.tracks[t].segments|
    ensures |ps| == SegmentsPoints(doc.tracks[t].segments[k..])
    ensures forall j :: 0 <= j < |ps| ==> Valid(doc, ps[j]) && ps[j].track == t && k <= ps[j].segment
    ensures Sorted(ps)
    decreases |doc.tracks[t].segments| - k
  {
    var segments := doc.tracks[t].segments;
    if k == |segments| then []
    else
      var here := PointPositions(doc, t, k);
      var later := SegmentPositions(doc, t, k + 1);
      assert segments[k..][1..] == segments[k + 1..];
      assert forall x :: x in later ==> x.track == t && k < x.segment;
      SortedAppend(here, later);
      here + later
  }

  /** The positions of the points of tracks `t`, `t + 1`, ...: as many as
      those tracks hold, all valid and in track `t` or later, in document
      order. */
  function TrackPositions(doc: Doc, t: nat): (ps: seq<PointRef>)
    requires t <= |doc.tracks|
    ensures |ps| == TracksPoints(doc.tracks[t..])
    ensures forall j :: 0 <= j < |ps| ==> Valid(doc, ps[j]) && t <= ps[j].track
    ensures Sorted(ps)
    decreases |doc.tracks| - t
  {
    if t == |doc.tracks| then []
    else
      var here := SegmentPositions(doc, t, 0);
      var later := TrackPositions(doc, t + 1);
      assert doc.tracks[t].segments[0..] == doc.tracks[t].segments;
      assert doc.tracks[t..][1..] == doc.tracks[t + 1..];
      assert forall x :: x in here ==> x.track == t;
      assert forall x :: x in later ==> t < x.track;
      SortedAppend(here, later);
      here + later
  }

  /** Every point position of the document, in document order: one entry per
      point, each naming an existing point, strictly increasing. */
  function Positions(doc: Doc): (ps: seq<PointRef>)
    ensures |ps| == TotalPoints(doc)
    ensures forall j :: 0 <= j < |ps| ==> Valid(doc, ps[j])
    ensures Sorted(ps)
  {
    assert doc.tracks[0..] == doc.tracks;
    TrackPositions(doc, 0)
  }

  lemma {:induction false} SegmentPositionsComplete(doc: Doc, t: nat, k: nat, r: PointRef)
    requires t < |doc.tracks| && k <= |doc.tracks[t].segments|
    requires Valid(doc, r) && r.track == t && k <= r.segment
    ensures r in SegmentPositions(doc, t, k)
    decreases |doc.tracks[t].segments| - k
  {
    if r.segment == k {
      assert PointPositions(doc, t, k)[r.point] == r;
    } else {
      SegmentPositionsComplete(doc, t, k + 1, r);
    }
  }

  lemma {:induction false} TrackPositionsComplete(doc: Doc, t: nat, r: PointRef)
    requires t <= |doc.tracks|
    requires Valid(doc, r) && t <= r.track
    ensures r in TrackPositions(doc, t)
    decreases |doc.tracks| - t
  {
    if r.track == t {
      SegmentPositionsComplete(doc, t, 0, r);
    } else {
      TrackPositionsComplete(doc, t + 1, r);
    }
  }

  /** The positions listed are exactly the points of the document. */
  lemma PositionsExactlyValid(doc: Doc)
    ensures forall r :: r in Positions(doc) <==> Valid(doc, r)
  {
    forall r | Valid(doc, r)
      ensures r in Positions(doc)
    {
      TrackPositionsComplete(doc, 0, r);
    }
  }
}
