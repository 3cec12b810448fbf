/**
  The length of the planned line by the haversine formula, and the average
  deviation `area / distance` with numpy's float64 division.
*/
module Geodesy {
  import opened PyMath
  import opened Tracks
  import opened Errors

  /** The exact values of numpy's functions that the zero-length case needs. */
  predicate ExactAtZero(np: Numpy) {
    np.sin(0.0) == 0.0 && np.sqrt(0.0) == 0.0 && np.sqrt(1.0) == 1.0 && np.arctan2(0.0, 1.0) == 0.0
  }

  /** The haversine of the central angle between two points given in radians. */
  function HalfChord(np: Numpy, lat1: real, lat2: real, lon1: real, lon2: real): (a: real)
    ensures np.sin(0.0) == 0.0 && lat1 == lat2 && lon1 == lon2 ==> a == 0.0
  {
    Square(np.sin((lat2 - lat1) / 2.0)) + np.cos(lat1) * np.cos(lat2) * Square(np.sin((lon2 - lon1) / 2.0))
  }

  /** The central angle whose haversine is `a`. */
  function CentralAngle(np: Numpy, a: real): (c: real)
    ensures ExactAtZero(np) && a == 0.0 ==> c == 0.0
  {
    2.0 * np.arctan2(np.sqrt(a), np.sqrt(1.0 - a))
  }

  /** Great-circle distance between two points (degrees) on a sphere of the given radius. */
  function Haversine(np: Numpy, radius: real, p1: LonLat, p2: LonLat): real {
    radius * CentralAngle(np, HalfChord(np, Deg2Rad(p1.lat), Deg2Rad(p2.lat), Deg2Rad(p1.lon), Deg2Rad(p2.lon)))
  }

  /**
    `calculate_line_distance`: the haversine distance from the line's first
    point to its last; IndexError for an empty line.
  */
  function LineDistance(np: Numpy, radius: real, line: seq<LonLat>): (r: Result<real>)
    ensures r.Err? <==> line == []
    ensures r.Err? ==> r.error == IndexError
    ensures r.Ok? ==> r.value == Haversine(np, radius, line[0], line[|line| - 1])
  {
    if line == [] then Err(IndexError) else Ok(Haversine(np, radius, line[0], line[|line| - 1]))
  }

  /** Points strictly between the ends of the line do not change its length. */
  lemma LineDistanceIgnoresInterior(np: Numpy, radius: real, first: LonLat, interior: seq<LonLat>, last: LonLat)
    ensures LineDistance(np, radius, [first] + interior + [last]) == LineDistance(np, radius, [first, last])
  {
  }

  /** A line that starts and ends at the same point has length zero. */
  lemma HaversineSamePoint(np: Numpy, radius: real, p: LonLat)
    requires ExactAtZero(np)
    ensures Haversine(np, radius, p, p) == 0.0
  {
    var lat, lon := Deg2Rad(p.lat), Deg2Rad(p.lon);
    assert (lat - lat) / 2.0 == 0.0 && (lon - lon) / 2.0 == 0.0;
    assert HalfChord(np, lat, lat, lon, lon) == 0.0;
  }

  /** An odd `sin` makes the haversine term symmetric in its two points. */
  lemma HalfChordSymmetric(np: Numpy, lat1: real, lat2: real, lon1: real, lon2: real)
    requires np.sin((lat1 - lat2) / 2.0) == -np.sin((lat2 - lat1) / 2.0)
    requires np.sin((lon1 - lon2) / 2.0) == -np.sin((lon2 - lon1) / 2.0)
    ensures HalfChord(np, lat1, lat2, lon1, lon2) == HalfChord(np, lat2, lat1, lon2, lon1)
  {
    var sLat, sLon := np.sin((lat2 - lat1) / 2.0), np.sin((lon2 - lon1) / 2.0);
    assert Square(-sLat) == Square(sLat) && Square(-sLon) == Square(sLon);
    assert np.cos(lat2) * np.cos(lat1) == np.cos(lat1) * np.cos(lat2);
  }

  /**
    The distance does not depend on the direction of travel, given only that
    `sin` is odd at the two half-differences it is applied to.
  */
  lemma HaversineSymmetric(np: Numpy, radius: real, p1: LonLat, p2: LonLat)
    requires var lat1, lat2, lon1, lon2 := Deg2Rad(p1.lat), Deg2Rad(p2.lat), Deg2Rad(p1.lon), Deg2Rad(p2.lon);
      np.sin((lat1 - lat2) / 2.0) == -np.sin((lat2 - lat1) / 2.0) &&
      np.sin((lon1 - lon2) / 2.0) == -np.sin((lon2 - lon1) / 2.0)
    ensures Haversine(np, radius, p1, p2) == Haversine(np, radius, p2, p1)
  {
    HalfChordSymmetric(np, Deg2Rad(p1.lat), Deg2Rad(p2.lat), Deg2Rad(p1.lon), Deg2Rad(p2.lon));
  }

  /** A float64 quotient: a finite value, a signed infinity, or not-a-number. */
  datatype Float64 = Finite(value: real) | Infinity(positive: bool) | NaN

  /**
    `area / distance` on numpy float64 values: no guard against a zero
    distance, which yields an infinity (or NaN for 0 / 0) instead of an
    exception. Signed zeros are not modelled: a zero divisor counts as +0.
  */
  function Divide(area: real, distance: real): (q: Float64)
    ensures q.Finite? <==> distance != 0.0
    ensures q.Finite? ==> q.value * distance == area
    ensures q.NaN? <==> distance == 0.0 && area == 0.0
    ensures q.Infinity? ==> (q.positive <==> area > 0.0)
  {
    if distance != 0.0 then Finite(area / distance)
    else if area == 0.0 then NaN
    else Infinity(area > 0.0)
  }
}
