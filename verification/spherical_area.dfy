/**
  The area enclosed by the boundary ring, by the line integral of
  Green's theorem on a sphere: colatitudes and azimuths of the ring's
  points relative to (0, 0), wrapped azimuth steps, midpoint colatitudes,
  the summed integrand, the fold onto the smaller of the two regions the
  ring separates, and the scaling to square metres.

  numpy's trigonometry is abstract (see `PyMath.Numpy`): what is proved is
  the shape of the arrays, the ranges of the wrapped and folded values and
  the algebra of the steps, not numerical accuracy.
*/
module SphericalArea {
  import opened PyMath
  import opened Sequences
  import opened Tracks
  import opened Errors

  /** Colatitude of a point (radians) relative to (0, 0), by the haversine. */
  function Colatitude(np: Numpy, lat: real, lon: real): real {
    var a := Square(np.sin(lat / 2.0)) + np.cos(lat) * Square(np.sin(lon / 2.0));
    2.0 * np.arctan2(np.sqrt(a), np.sqrt(1.0 - a))
  }

  /** Azimuth of a point (radians) seen from (0, 0), taken modulo 2 pi. */
  function Azimuth(np: Numpy, lat: real, lon: real): (r: real)
    ensures 0.0 <= r < 2.0 * PI
  {
    Mod(np.arctan2(np.cos(lat) * np.sin(lon), np.sin(lat)), 2.0 * PI)
  }

  function Colatitudes(np: Numpy, lats: seq<real>, lons: seq<real>): (r: seq<real>)
    requires |lats| == |lons|
    ensures |r| == |lats|
  {
    seq(|lats|, i requires 0 <= i < |lats| => Colatitude(np, lats[i], lons[i]))
  }

  function Azimuths(np: Numpy, lats: seq<real>, lons: seq<real>): (r: seq<real>)
    requires |lats| == |lons|
    ensures |r| == |lats|
    ensures forall i :: 0 <= i < |r| ==> 0.0 <= r[i] < 2.0 * PI
  {
    seq(|lats|, i requires 0 <= i < |lats| => Azimuth(np, lats[i], lons[i]))
  }

  /**
    `(diff(az) + pi) % (2 * pi) - pi`: one step per consecutive pair, each
    in [-pi, pi) and a whole number of turns away from the raw difference.
  */
  function AzimuthDeltas(az: seq<real>): (daz: seq<real>)
    ensures |daz| == if az == [] then 0 else |az| - 1
    ensures forall i {:trigger daz[i]} :: 0 <= i < |daz| ==>
      -PI <= daz[i] < PI && Congruent(daz[i], az[i + 1] - az[i], 2.0 * PI)
  {
    var d := Diff(az);
    seq(|d|, i requires 0 <= i < |d| => Wrap(d[i]))
  }

  /**
    `colat[0:-1] + diff(colat) / 2`: one midpoint per consecutive pair,
    lying between the two colatitudes.
  */
  function Midpoints(colat: seq<real>): (mid: seq<real>)
    ensures |mid| == if colat == [] then 0 else |colat| - 1
    ensures forall i {:trigger mid[i]} :: 0 <= i < |mid| ==>
      (colat[i] <= mid[i] <= colat[i + 1]) || (colat[i + 1] <= mid[i] <= colat[i])
    ensures forall i {:trigger mid[i]} :: 0 <= i < |mid| ==> mid[i] == (colat[i] + colat[i + 1]) / 2.0
  {
    var d := Diff(colat);
    seq(|d|, i requires 0 <= i < |d| => colat[i] + d[i] / 2.0)
  }

  /**
    The contribution of the step from (c0, a0) to (c1, a1), written
    symmetrically in the two endpoints' colatitudes.
  */
  function SegmentTerm(np: Numpy, c0: real, c1: real, a0: real, a1: real): real {
    Integrand(np, (c0 + c1) / 2.0, Wrap(a1 - a0))
  }

  /** `(1 - cos(colat_mid)) * daz` for one midpoint colatitude and azimuth step. */
  function Integrand(np: Numpy, mid: real, daz: real): (r: real)
    ensures daz == 0.0 || np.cos(mid) == 1.0 ==> r == 0.0
  {
    (1.0 - np.cos(mid)) * daz
  }

  /** `(1 - cos(colat_mid)) * daz`, element-wise. */
  function Integrands(np: Numpy, colat: seq<real>, az: seq<real>): (r: seq<real>)
    requires |colat| == |az|
    ensures |r| == if az == [] then 0 else |az| - 1
    ensures forall i {:trigger r[i]} :: 0 <= i < |r| ==>
      r[i] == SegmentTerm(np, colat[i], colat[i + 1], az[i], az[i + 1])
  {
    var mid := Midpoints(colat);
    var daz := AzimuthDeltas(az);
    seq(|daz|, i requires 0 <= i < |daz| => Integrand(np, mid[i], daz[i]))
  }

  /** `abs(sum(integrands)) / (4 * pi)`: the enclosed fraction of the unit sphere. */
  function Fraction(np: Numpy, colat: seq<real>, az: seq<real>): (f: real)
    requires |colat| == |az|
    ensures f >= 0.0
  {
    Abs(Sum(Integrands(np, colat, az))) / (4.0 * PI)
  }

  /** The fraction of the sphere enclosed by a closed ring given in radians. */
  function RingFraction(np: Numpy, lats: seq<real>, lons: seq<real>): (f: real)
    requires |lats| == |lons|
    ensures f >= 0.0
  {
    Fraction(np, Colatitudes(np, lats, lons), Azimuths(np, lats, lons))
  }

  /**
    `min(f, 1 - f)`: the ring cannot tell the region it encloses from its
    complement, so the smaller one is reported.
  */
  function Fold(f: real): (r: real)
    ensures r == f || r == 1.0 - f
    ensures r <= f && r <= 1.0 - f
    ensures r <= 0.5
    ensures 0.0 <= f <= 1.0 ==> 0.0 <= r
    ensures f >= 0.0 ==> (r >= 0.0 <==> f <= 1.0)
  {
    if 1.0 - f < f then 1.0 - f else f
  }

  /** `f * 4 * pi * R ** 2`: a fraction of the sphere in square metres. */
  function SphereArea(f: real, radius: real): (r: real)
    ensures f == 0.0 || radius == 0.0 ==> r == 0.0
    ensures f == 1.0 ==> r == 4.0 * PI * Square(radius)
  {
    f * 4.0 * PI * Square(radius)
  }

  lemma SquarePositive(x: real)
    requires x != 0.0
    ensures Square(x) > 0.0
  {
    var y := if x < 0.0 then -x else x;
    assert y * y > 0.0;
    calc {
      Square(x);
      == x * x;
      == y * y;
      > 0.0;
    }
  }

  lemma SphereAreaBounds(f: real, radius: real)
    requires f <= 0.5
    ensures SphereArea(f, radius) <= 2.0 * PI * Square(radius)
    ensures radius != 0.0 ==> (SphereArea(f, radius) >= 0.0 <==> f >= 0.0)
  {
    var s := 4.0 * PI * Square(radius);
    assert SphereArea(f, radius) == f * s;
    assert s >= 0.0;
    var g := 0.5 - f;
    assert g >= 0.0;
    assert g * s >= 0.0;
    if radius != 0.0 {
      SquarePositive(radius);
      assert s > 0.0;
      if f >= 0.0 {
        assert f * s >= 0.0;
      } else {
        assert (-f) * s > 0.0;
      }
    }
  }

  /**
    The closing step with list semantics: append the first point when the
    first and last latitudes differ. Only latitudes are compared, so a ring
    whose ends share a latitude but not a longitude is left open.
  */
  function CloseRing(lats: seq<real>, lons: seq<real>): (r: Result<(seq<real>, seq<real>)>)
    requires |lats| == |lons|
    ensures r.Err? <==> lats == []
    ensures r.Err? ==> r.error == IndexError
    ensures r.Ok? ==> |r.value.0| == |r.value.1|
    ensures r.Ok? ==> var (la, lo) := r.value;
      |lats| <= |la| && la[..|lats|] == lats && lo[..|lons|] == lons && la[0] == la[|la| - 1] &&
      (|la| == |lats| + 1 <==> lats[0] != lats[|lats| - 1]) &&
      (lats[0] == lats[|lats| - 1] ==> la == lats && lo == lons) &&
      (|la| == |lats| + 1 ==> lo[|lo| - 1] == lons[0])
  {
    if lats == [] then Err(IndexError)
    else if lats[0] != lats[|lats| - 1] then Ok((lats + [lats[0]], lons + [lons[0]]))
    else Ok((lats, lons))
  }

  /**
    The closing step as written: `append` on the numpy arrays `deg2rad`
    returns raises AttributeError, so every ring that needs closing fails.
  */
  function CloseRingAsWritten(lats: seq<real>, lons: seq<real>): (r: Result<(seq<real>, seq<real>)>)
    requires |lats| == |lons|
    ensures r.Err? <==> lats == [] || lats[0] != lats[|lats| - 1]
    ensures r.Ok? ==> r.value == (lats, lons)
  {
    if lats == [] then Err(IndexError)
    else if lats[0] != lats[|lats| - 1] then Err(AttributeError)
    else Ok((lats, lons))
  }

  /** A ring whose ends differ in latitude: the as-written step raises, the list step closes it. */
  lemma CloseRingAsWrittenRaises()
    ensures CloseRingAsWritten([0.0, 1.0], [0.0, 0.0]) == Err(AttributeError)
    ensures CloseRing([0.0, 1.0], [0.0, 0.0]) == Ok(([0.0, 1.0, 0.0], [0.0, 0.0, 0.0]))
  {
    assert [0.0, 1.0] + [0.0] == [0.0, 1.0, 0.0];
    assert [0.0, 0.0] + [0.0] == [0.0, 0.0, 0.0];
  }

  /** The two closing steps agree on every ring that needs no closing. */
  lemma CloseRingAgrees(lats: seq<real>, lons: seq<real>)
    requires |lats| == |lons|
    requires CloseRingAsWritten(lats, lons).Ok?
    ensures CloseRing(lats, lons) == CloseRingAsWritten(lats, lons)
  {
  }

  /** The ring `calculate_area` integrates: the stored lists in radians, closed. */
  function ClosedRing(latPolygon: seq<real>, lonPolygon: seq<real>): Result<(seq<real>, seq<real>)>
    requires |latPolygon| == |lonPolygon|
  {
    CloseRing(Radians(latPolygon), Radians(lonPolygon))
  }

  /**
    `calculate_area` on the stored coordinate lists (degrees): IndexError
    for an empty ring; otherwise an area of at most half the sphere.
  */
  function EnclosedArea(np: Numpy, radius: real, latPolygon: seq<real>, lonPolygon: seq<real>): (r: Result<real>)
    requires |latPolygon| == |lonPolygon|
    ensures r.Err? <==> latPolygon == []
    ensures r.Err? ==> r.error == IndexError
    ensures r.Ok? ==> r.value <= 2.0 * PI * Square(radius)
  {
    var closed := ClosedRing(latPolygon, lonPolygon);
    if closed.Err? then Err(closed.error)
    else
      var f := RingFraction(np, closed.value.0, closed.value.1);
      SphereAreaBounds(Fold(f), radius);
      Ok(SphereArea(Fold(f), radius))
  }

  /**
    The reported area is never negative exactly when the enclosed fraction
    is at most the whole sphere (for a non-zero radius).
  */
  lemma EnclosedAreaSign(np: Numpy, radius: real, latPolygon: seq<real>, lonPolygon: seq<real>)
    requires |latPolygon| == |lonPolygon| > 0 && radius != 0.0
    ensures var closed := ClosedRing(latPolygon, lonPolygon).value;
      EnclosedArea(np, radius, latPolygon, lonPolygon).value >= 0.0 <==>
      RingFraction(np, closed.0, closed.1) <= 1.0
  {
    var closed := ClosedRing(latPolygon, lonPolygon).value;
    SphereAreaBounds(Fold(RingFraction(np, closed.0, closed.1)), radius);
  }

  // ----- Properties of the integral over rings -----

  /**
    The wrapped azimuth steps add up to the net change of azimuth plus whole
    turns; around a ring that returns to its starting azimuth they add up to
    a whole number of turns, the winding of the ring about (0, 0).
  */
  lemma AzimuthStepsWind(az: seq<real>)
    requires az != []
    ensures Congruent(Sum(AzimuthDeltas(az)), az[|az| - 1] - az[0], 2.0 * PI)
    ensures az[0] == az[|az| - 1] ==> Congruent(Sum(AzimuthDeltas(az)), 0.0, 2.0 * PI)
  {
    SumsCongruent(AzimuthDeltas(az), Diff(az), 2.0 * PI);
    DiffTelescopes(az);
  }

  /** No wrapped azimuth step lands exactly on -pi, where wrapping is not odd. */
  ghost predicate NoHalfTurns(az: seq<real>)
  {
    forall i :: 0 <= i < |az| - 1 ==> Wrap(az[i + 1] - az[i]) != -PI
  }

  /** Joining two paths adds the step between them to the two integrals. */
  lemma IntegrandsAppend(np: Numpy, c1: seq<real>, a1: seq<real>, c2: seq<real>, a2: seq<real>)
    requires |c1| == |a1| > 0 && |c2| == |a2| > 0
    ensures Integrands(np, c1 + c2, a1 + a2) ==
      Integrands(np, c1, a1)
      + [SegmentTerm(np, c1[|c1| - 1], c2[0], a1[|a1| - 1], a2[0])]
      + Integrands(np, c2, a2)
  {
    hide *;
    var lhs := Integrands(np, c1 + c2, a1 + a2);
    var rhs := Integrands(np, c1, a1)
      + [SegmentTerm(np, c1[|c1| - 1], c2[0], a1[|a1| - 1], a2[0])]
      + Integrands(np, c2, a2);
    assert |lhs| == |rhs|;
    forall i | 0 <= i < |lhs| ensures lhs[i] == rhs[i] {
      if i < |c1| - 1 {
      } else if i == |c1| - 1 {
      } else {
        assert rhs[i] == Integrands(np, c2, a2)[i - |c1|];
      }
    }
  }

  lemma {:induction false} SumIntegrandsAppend(np: Numpy, c1: seq<real>, a1: seq<real>, c2: seq<real>, a2: seq<real>)
    requires |c1| == |a1| > 0 && |c2| == |a2| > 0
    ensures Sum(Integrands(np, c1 + c2, a1 + a2)) ==
      Sum(Integrands(np, c1, a1))
      + SegmentTerm(np, c1[|c1| - 1], c2[0], a1[|a1| - 1], a2[0])
      + Sum(Integrands(np, c2, a2))
  {
    hide Integrands, SegmentTerm;
    var t := SegmentTerm(np, c1[|c1| - 1], c2[0], a1[|a1| - 1], a2[0]);
    IntegrandsAppend(np, c1, a1, c2, a2);
    SumAppend(Integrands(np, c1, a1) + [t], Integrands(np, c2, a2));
    SumAppend(Integrands(np, c1, a1), [t]);
    assert [t][..0] == [];
  }

  /** Walking a step backwards negates its term, unless it wraps to -pi. */
  lemma SegmentTermReversed(np: Numpy, c0: real, c1: real, a0: real, a1: real)
    requires Wrap(a1 - a0) != -PI
    ensures SegmentTerm(np, c1, c0, a1, a0) == -SegmentTerm(np, c0, c1, a0, a1)
  {
    hide Wrap;
    WrapNegate(a1 - a0);
    assert a0 - a1 == -(a1 - a0);
    var w, m := Wrap(a1 - a0), (c0 + c1) / 2.0;
    assert Wrap(a0 - a1) == -w;
    assert (c1 + c0) / 2.0 == m;
    assert (1.0 - np.cos(m)) * -w == -((1.0 - np.cos(m)) * w);
  }

  /** A step that goes nowhere contributes nothing. */
  lemma SegmentTermStill(np: Numpy, c: real, a: real)
    ensures SegmentTerm(np, c, c, a, a) == 0.0
  {
    WrapPrincipal(0.0);
  }

  lemma IntegrandReversedAt(np: Numpy, colat: seq<real>, az: seq<real>, i: nat)
    requires |colat| == |az| && i + 1 < |az|
    requires NoHalfTurns(az)
    ensures Integrands(np, Reverse(colat), Reverse(az))[i] == -Integrands(np, colat, az)[|az| - 2 - i]
  {
    hide Integrands, SegmentTerm, Wrap, Midpoints, AzimuthDeltas;
    var j := |az| - 2 - i;
    var rc, ra := Reverse(colat), Reverse(az);
    assert rc[i] == colat[j + 1] && rc[i + 1] == colat[j];
    assert ra[i] == az[j + 1] && ra[i + 1] == az[j];
    SegmentTermReversed(np, colat[j], colat[j + 1], az[j], az[j + 1]);
  }

  /** The integrands of the reversed path are those of the path, reversed and negated. */
  lemma IntegrandsReversed(np: Numpy, colat: seq<real>, az: seq<real>)
    requires |colat| == |az|
    requires NoHalfTurns(az)
    ensures Integrands(np, Reverse(colat), Reverse(az)) == Negated(Reverse(Integrands(np, colat, az)))
  {
    hide *;
    var fwd := Integrands(np, colat, az);
    var lhs := Integrands(np, Reverse(colat), Reverse(az));
    forall i | 0 <= i < |lhs| ensures lhs[i] == -fwd[|fwd| - 1 - i] {
      IntegrandReversedAt(np, colat, az, i);
    }
    NegatedReverse(lhs, fwd);
  }

  /**
    The line integral of the reversed path is the negated integral, so the
    enclosed fraction does not depend on the direction of travel.
  */
  lemma FractionReversed(np: Numpy, colat: seq<real>, az: seq<real>)
    requires |colat| == |az|
    requires NoHalfTurns(az)
    ensures Sum(Integrands(np, Reverse(colat), Reverse(az))) == -Sum(Integrands(np, colat, az))
    ensures Fraction(np, Reverse(colat), Reverse(az)) == Fraction(np, colat, az)
  {
    hide Integrands, SegmentTerm, Sum;
    var fwd := Integrands(np, colat, az);
    IntegrandsReversed(np, colat, az);
    SumNegated(Reverse(fwd));
    SumReverse(fwd);
    var s := Sum(fwd);
    assert Sum(Integrands(np, Reverse(colat), Reverse(az))) == -s;
    assert Abs(-s) == Abs(s);
  }

  /** A path followed by its own reverse and a closing step has a zero integral. */
  lemma {:induction false} RetraceSumsToZero(np: Numpy, colat: seq<real>, az: seq<real>)
    requires |colat| == |az| > 0
    requires NoHalfTurns(az)
    ensures Sum(Integrands(np, colat + Reverse(colat) + [colat[0]], az + Reverse(az) + [az[0]])) == 0.0
  {
    hide Integrands, SegmentTerm;
    var n := |az|;
    var rc, ra := Reverse(colat), Reverse(az);
    SumIntegrandsAppend(np, colat, az, rc, ra);
    SegmentTermStill(np, colat[n - 1], az[n - 1]);
    FractionReversed(np, colat, az);
    SumIntegrandsAppend(np, colat + rc, az + ra, [colat[0]], [az[0]]);
    SegmentTermStill(np, colat[0], az[0]);
  }

  // ----- The same properties for rings of track points -----

  function PointColatitude(np: Numpy, p: LonLat): real {
    Colatitude(np, Deg2Rad(p.lat), Deg2Rad(p.lon))
  }

  function PointAzimuth(np: Numpy, p: LonLat): real {
    Azimuth(np, Deg2Rad(p.lat), Deg2Rad(p.lon))
  }

  function TrackColatitudes(np: Numpy, track: seq<LonLat>): (r: seq<real>)
    ensures |r| == |track|
  {
    seq(|track|, i requires 0 <= i < |track| => PointColatitude(np, track[i]))
  }

  function TrackAzimuths(np: Numpy, track: seq<LonLat>): (r: seq<real>)
    ensures |r| == |track|
  {
    seq(|track|, i requires 0 <= i < |track| => PointAzimuth(np, track[i]))
  }

  /** The arrays computed from the split coordinate lists are those of the points. */
  lemma TrackArrays(np: Numpy, track: seq<LonLat>)
    ensures Colatitudes(np, Radians(Lats(track)), Radians(Lons(track))) == TrackColatitudes(np, track)
    ensures Azimuths(np, Radians(Lats(track)), Radians(Lons(track))) == TrackAzimuths(np, track)
  {
    hide Colatitude, Azimuth;
  }

  /** Every ring built from a non-empty line already ends on its first latitude. */
  lemma BoundaryRingNeedsNoClosing(line: seq<LonLat>, mission: seq<LonLat>)
    requires line != []
    ensures var ring := BoundaryRing(line, mission);
      var lats, lons := Radians(Lats(ring)), Radians(Lons(ring));
      CloseRing(lats, lons) == Ok((lats, lons))
  {
  }

  /** The arrays of a reversed track are the track's arrays, reversed. */
  lemma TrackArraysReversed(np: Numpy, track: seq<LonLat>)
    ensures TrackColatitudes(np, Reverse(track)) == Reverse(TrackColatitudes(np, track))
    ensures TrackAzimuths(np, Reverse(track)) == Reverse(TrackAzimuths(np, track))
  {
    hide PointColatitude, PointAzimuth;
  }

  /** The arrays of a track retraced back to its start. */
  lemma TrackArraysRetraced(np: Numpy, line: seq<LonLat>)
    requires line != []
    ensures var c := TrackColatitudes(np, line);
      TrackColatitudes(np, OutAndBack(line) + [line[0]]) == c + Reverse(c) + [c[0]]
    ensures var a := TrackAzimuths(np, line);
      TrackAzimuths(np, OutAndBack(line) + [line[0]]) == a + Reverse(a) + [a[0]]
  {
    hide PointColatitude, PointAzimuth;
  }

  /**
    On a ring of track points whose ends share a latitude the closing step
    does nothing, and the area is the folded fraction of the points' arrays.
  */
  lemma EnclosedAreaOfTrack(np: Numpy, radius: real, ring: seq<LonLat>)
    requires ring != [] && ring[0].lat == ring[|ring| - 1].lat
    ensures EnclosedArea(np, radius, Lats(ring), Lons(ring)) ==
      Ok(SphereArea(Fold(Fraction(np, TrackColatitudes(np, ring), TrackAzimuths(np, ring))), radius))
  {
    hide Lats, Lons, Fraction, Colatitudes, Azimuths, Integrands, TrackColatitudes, TrackAzimuths;
    var lats, lons := Radians(Lats(ring)), Radians(Lons(ring));
    SplitAt(ring, 0);
    SplitAt(ring, |ring| - 1);
    assert CloseRing(lats, lons) == Ok((lats, lons));
    TrackArrays(np, ring);
  }

  /**
    Comparing a planned line with a route that retraces it exactly gives a
    zero enclosed area.
  */
  lemma RetracedRouteEnclosesNothing(np: Numpy, radius: real, line: seq<LonLat>)
    requires line != []
    requires NoHalfTurns(TrackAzimuths(np, line))
    ensures var ring := BoundaryRing(line, line);
      EnclosedArea(np, radius, Lats(ring), Lons(ring)) == Ok(0.0)
  {
    hide EnclosedArea, BoundaryRing, Integrands, TrackColatitudes, TrackAzimuths, OutAndBack, Lats, Lons, Reverse;
    var ring := BoundaryRing(line, line);
    BoundaryRingShape(line, line);
    EnclosedAreaOfTrack(np, radius, ring);
    RetraceRing(line);
    TrackArraysRetraced(np, line);
    var c, a := TrackColatitudes(np, line), TrackAzimuths(np, line);
    RetraceSumsToZero(np, c, a);
    assert Fraction(np, TrackColatitudes(np, ring), TrackAzimuths(np, ring)) == 0.0;
  }

  /**
    Traversing a closed ring in the opposite direction encloses the same
    area.
  */
  lemma ReversedRingEnclosesSameArea(np: Numpy, radius: real, ring: seq<LonLat>)
    requires ring != [] && ring[0].lat == ring[|ring| - 1].lat
    requires NoHalfTurns(TrackAzimuths(np, ring))
    ensures EnclosedArea(np, radius, Lats(Reverse(ring)), Lons(Reverse(ring))) ==
      EnclosedArea(np, radius, Lats(ring), Lons(ring))
  {
    hide EnclosedArea, Integrands, TrackColatitudes, TrackAzimuths, Lats, Lons, Fraction;
    var rev := Reverse(ring);
    EnclosedAreaOfTrack(np, radius, ring);
    EnclosedAreaOfTrack(np, radius, rev);
    TrackArraysReversed(np, ring);
    FractionReversed(np, TrackColatitudes(np, ring), TrackAzimuths(np, ring));
  }
}
