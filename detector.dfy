/**
 * The geometric filter of the shaded-marker detector: of the outer contours
 * found in the thresholded page image, keep those whose area and bounding
 * rectangle look like a filled fixture symbol.
 */
module Detector {

  /** A contour as the filter sees it: its bounding rectangle and its area. */
  datatype Candidate = Candidate(x: int, y: int, w: int, h: int, area: real)

  /** An axis-aligned box given by two corners. */
  datatype BBox = BBox(x1: int, y1: int, x2: int, y2: int)

  /** One detected marker: its box and the area of its contour. */
  datatype Marker = Marker(bbox: BBox, area: real)

  const MinArea: real := 100.0
  const MinSide := 10
  const MinAspect: real := 0.5
  const MaxAspect: real := 2.0

  /** Large enough, both sides longer than the minimum, and not too elongated. */
  predicate Accepted(c: Candidate) {
    && c.area > MinArea && c.w > MinSide && c.h > MinSide
    && MinAspect < (c.w as real) / (c.h as real) < MaxAspect
  }

  /** The marker recorded for a candidate: `[x, y, x + w, y + h]` and the area. */
  function ToMarker(c: Candidate): Marker {
    Marker(BBox(c.x, c.y, c.x + c.w, c.y + c.h), c.area)
  }

  /** The markers of the accepted candidates, in candidate order. */
  function Kept(cs: seq<Candidate>): (r: seq<Marker>)
    ensures |r| <= |cs|
    decreases |cs|
  {
    if cs == [] then []
    else
      var c := cs[|cs| - 1];
      Kept(cs[..|cs| - 1]) + (if Accepted(c) then [ToMarker(c)] else [])
  }

  lemma KeptStep(cs: seq<Candidate>, i: nat)
    requires i < |cs|
    ensures Kept(cs[..i + 1]) == Kept(cs[..i]) + (if Accepted(cs[i]) then [ToMarker(cs[i])] else [])
  {
    assert cs[..i + 1][..i] == cs[..i];
  }

  /** Multiplying by a positive real keeps a strict order, both ways. */
  lemma ScalePos(a: real, b: real, c: real)
    requires c > 0.0
    ensures a < b <==> a * c < b * c
  {
    if a < b {
      assert (b - a) * c > 0.0;
    }
    if a * c < b * c {
      assert (b - a) * c > 0.0;
    }
  }

  /** The ratio band, scaled by the (positive) height. */
  lemma BandScaled(r: real, wr: real, hr: real)
    requires hr > 0.0 && r * hr == wr
    ensures MinAspect < r <==> hr < 2.0 * wr
    ensures r < MaxAspect <==> wr < 2.0 * hr
  {
    ScalePos(MinAspect, r, hr);
    ScalePos(r, MaxAspect, hr);
  }

  /** For positive sides the ratio band is the integer condition
      `h < 2 * w && w < 2 * h`. */
  lemma AspectBand(w: int, h: int)
    requires w > 0 && h > 0
    ensures MinAspect < (w as real) / (h as real) < MaxAspect <==> h < 2 * w && w < 2 * h
  {
    var wr, hr := w as real, h as real;
    BandScaled(wr / hr, wr, hr);
    assert (2 * w) as real == 2.0 * wr && (2 * h) as real == 2.0 * hr;
  }

  /** A marker records a box and area that passed the filter. */
  predicate ValidMarker(m: Marker) {
    var w := m.bbox.x2 - m.bbox.x1;
    var h := m.bbox.y2 - m.bbox.y1;
    m.area > MinArea && w > MinSide && h > MinSide && h < 2 * w && w < 2 * h
  }

  lemma AcceptedValid(c: Candidate)
    requires Accepted(c)
    ensures ValidMarker(ToMarker(c))
  {
    AspectBand(c.w, c.h);
  }

  /** Every kept marker is the marker of some accepted candidate and obeys
      the area, size and aspect bounds. */
  lemma {:induction false} KeptSound(cs: seq<Candidate>)
    ensures forall i :: 0 <= i < |Kept(cs)| ==> ValidMarker(Kept(cs)[i])
    ensures forall i :: 0 <= i < |Kept(cs)| ==>
              exists j :: 0 <= j < |cs| && Accepted(cs[j]) && Kept(cs)[i] == ToMarker(cs[j])
    decreases |cs|
  {
    if cs != [] {
      var n := |cs| - 1;
      var init := cs[..n];
      KeptSound(init);
      var r := Kept(cs);
      assert r == Kept(init) + (if Accepted(cs[n]) then [ToMarker(cs[n])] else []);
      forall i | 0 <= i < |r|
        ensures ValidMarker(r[i])
        ensures exists j :: 0 <= j < |cs| && Accepted(cs[j]) && r[i] == ToMarker(cs[j])
      {
        if i < |Kept(init)| {
          var j :| 0 <= j < |init| && Accepted(init[j]) && Kept(init)[i] == ToMarker(init[j]);
          assert init[j] == cs[j] && r[i] == Kept(init)[i];
          AcceptedValid(cs[j]);
        } else {
          assert r[i] == ToMarker(cs[n]);
          AcceptedValid(cs[n]);
        }
      }
    } else {
      assert Kept(cs) == [];
    }
  }

  /** Every accepted candidate's marker is in the output. */
  lemma {:induction false} KeptComplete(cs: seq<Candidate>, j: nat)
    requires j < |cs| && Accepted(cs[j])
    ensures ToMarker(cs[j]) in Kept(cs)
    decreases |cs|
  {
    var n := |cs| - 1;
    var init := cs[..n];
    if j < n {
      assert init[j] == cs[j];
      KeptComplete(init, j);
    }
  }

  /** A candidate's marker is reported exactly when the candidate is in the
      input and passes the filter. */
  lemma KeptMembers(cs: seq<Candidate>, c: Candidate)
    ensures ToMarker(c) in Kept(cs) <==> c in cs && Accepted(c)
  {
    if ToMarker(c) in Kept(cs) {
      KeptSound(cs);
      var i :| 0 <= i < |Kept(cs)| && Kept(cs)[i] == ToMarker(c);
      var j :| 0 <= j < |cs| && Accepted(cs[j]) && Kept(cs)[i] == ToMarker(cs[j]);
      assert cs[j] == c;
    }
    if c in cs && Accepted(c) {
      var j :| 0 <= j < |cs| && cs[j] == c;
      KeptComplete(cs, j);
    }
  }

  /** Markers come out in candidate order, with nothing merged or dropped. */
  lemma {:induction false} KeptAppend(a: seq<Candidate>, b: seq<Candidate>)
    ensures Kept(a + b) == Kept(a) + Kept(b)
    decreases |b|
  {
    if b == [] {
      assert a + b == a;
    } else {
      var init := b[..|b| - 1];
      assert (a + b)[..|a + b| - 1] == a + init;
      assert (a + b)[|a + b| - 1] == b[|b| - 1];
      KeptAppend(a, init);
    }
  }

  /** The filter loop of `detect_shaded_emergency_lights`. */
  method DetectShadedMarkers(contours: seq<Candidate>) returns (markers: seq<Marker>)
    ensures markers == Kept(contours)
    ensures |markers| <= |contours|
    ensures forall i :: 0 <= i < |markers| ==> ValidMarker(markers[i])
    ensures contours == [] ==> markers == []
  {
    markers := [];
    for i := 0 to |contours|
      invariant markers == Kept(contours[..i])
    {
      var c := contours[i];
      var x, y, w, h := c.x, c.y, c.w, c.h;
      var area := c.area;
      KeptStep(contours, i);
      if area > MinArea && w > MinSide && h > MinSide && MinAspect < (w as real) / (h as real) < MaxAspect {
        markers := markers + [Marker(BBox(x, y, x + w, y + h), area)];
      }
    }
    assert contours[..|contours|] == contours;
    KeptSound(contours);
  }
}
