/**
  The reader object: it collects the two tracks, builds its point lists in
  place, and then fills in the distance, the enclosed area and the average
  deviation, in that order.
*/
module Reader {
  import opened PyMath
  import opened Sequences
  import opened Tracks
  import opened Errors
  import opened SphericalArea
  import opened Geodesy

  /** The default radius of the Earth, in metres. */
  const DefaultEarthRadius: real := 6378137.0

  class GpxReader {
    var segment: seq<seq<LonLat>>
    var lonLatLine: seq<LonLat>
    var lonLatMission: seq<LonLat>
    var lonLatPolygon: seq<LonLat>
    var lonPolygon: seq<real>
    var latPolygon: seq<real>
    const earthRadius: real
    const np: Numpy
    var distance: Option<real>
    var area: Option<real>
    var avDeviation: Option<Float64>
    /** The exception that ended construction, if any. */
    var raised: Option<PyError>

    /** The coordinate lists have one entry per boundary point. */
    ghost predicate Valid()
      reads this`lonPolygon, this`latPolygon
    {
      |lonPolygon| == |latPolygon|
    }

    /**
      Reads the planned line and the route taken, then computes the
      distance, the area and the deviation. An empty planned line raises
      IndexError in the distance step, and nothing after it runs.
    */
    constructor (line: seq<LonLat>, mission: seq<LonLat>, np: Numpy, earthRadius: real := DefaultEarthRadius)
      ensures Valid()
      ensures this.np == np && this.earthRadius == earthRadius
      ensures segment == [line, mission]
      ensures lonLatLine == OutAndBack(line) && lonLatMission == OutAndBack(mission)
      ensures lonLatPolygon == BoundaryRing(line, mission)
      ensures lonPolygon == Lons(lonLatPolygon) && latPolygon == Lats(lonLatPolygon)
      ensures line == [] ==>
        raised == Some(IndexError) && distance == None && area == None && avDeviation == None
      ensures line != [] ==>
        raised == None &&
        distance == Some(LineDistance(np, earthRadius, line).value) &&
        area == Some(EnclosedArea(np, earthRadius, latPolygon, lonPolygon).value) &&
        avDeviation == Some(Divide(area.value, distance.value))
    {
      this.np := np;
      this.earthRadius := earthRadius;
      segment := [];
      lonLatLine, lonLatMission, lonLatPolygon := [], [], [];
      lonPolygon, latPolygon := [], [];
      distance, area, avDeviation := None, None, None;
      raised := None;
      new;
      // Results are passed along, never recomputed: no definition is needed.
      hide *;
      ReadSegments(line, mission);
      var outcome := CalculateLineDistance();
      if outcome.Fail? {
        raised := Some(outcome.error);
      } else {
        // Once the line has a point, so does the ring, and neither
        // remaining step can raise.
        outcome := CalculateArea();
        assert outcome.Pass?;
        outcome := CalculateAvDeviation();
        assert outcome.Pass?;
      }
    }

    /**
      `read_segments`: appends both tracks to `segment`, then runs the
      source's loops in order: the line forward (to the line and polygon
      lists), the line backward, the route forward, the route backward (to
      the route and polygon lists), the line's first point (closing the
      polygon), and the split into longitudes and latitudes.
    */
    method ReadSegments(line: seq<LonLat>, mission: seq<LonLat>)
      requires Valid()
      modifies this
      ensures Valid()
      ensures segment == old(segment) + [line, mission]
      ensures lonLatLine == old(lonLatLine) + OutAndBack(segment[0])
      ensures lonLatMission == old(lonLatMission) + OutAndBack(segment[1])
      ensures lonLatPolygon == old(lonLatPolygon) + BoundaryRing(segment[0], segment[1])
      ensures lonPolygon == old(lonPolygon) + Lons(lonLatPolygon)
      ensures latPolygon == old(latPolygon) + Lats(lonLatPolygon)
      ensures distance == old(distance) && area == old(area)
      ensures avDeviation == old(avDeviation) && raised == old(raised)
    {
      segment := segment + [line, mission];
      var linePoints, missionPoints := segment[0], segment[1];
      ghost var line0, mission0, polygon0 := lonLatLine, lonLatMission, lonLatPolygon;
      AppendToLineAndPolygon(linePoints);
      AppendToLine(Reverse(linePoints));
      AppendToMission(missionPoints);
      AppendToMissionAndPolygon(Reverse(missionPoints));
      AppendToPolygon(FirstPoint(linePoints));
      AppendAssoc(line0, linePoints, Reverse(linePoints));
      AppendAssoc(mission0, missionPoints, Reverse(missionPoints));
      AppendAssoc(polygon0, linePoints, Reverse(missionPoints));
      AppendAssoc(polygon0, linePoints + Reverse(missionPoints), FirstPoint(linePoints));
      SplitPolygon();
    }

    /** The loop over the line's points, copying each to the line and polygon lists. */
    method AppendToLineAndPolygon(points: seq<LonLat>)
      modifies this`lonLatLine, this`lonLatPolygon
      ensures lonLatLine == old(lonLatLine) + points
      ensures lonLatPolygon == old(lonLatPolygon) + points
    {
      for k := 0 to |points|
        invariant lonLatLine == old(lonLatLine) + points[..k]
        invariant lonLatPolygon == old(lonLatPolygon) + points[..k]
      {
        AppendNext(old(lonLatLine), points, k);
        AppendNext(old(lonLatPolygon), points, k);
        lonLatLine := lonLatLine + [points[k]];
        lonLatPolygon := lonLatPolygon + [points[k]];
      }
      assert points[..|points|] == points;
    }

    /** The loop over the reversed line, copying each point to the line list. */
    method AppendToLine(points: seq<LonLat>)
      modifies this`lonLatLine
      ensures lonLatLine == old(lonLatLine) + points
    {
      for k := 0 to |points|
        invariant lonLatLine == old(lonLatLine) + points[..k]
      {
        AppendNext(old(lonLatLine), points, k);
        lonLatLine := lonLatLine + [points[k]];
      }
      assert points[..|points|] == points;
    }

    /** The loop over the route's points, copying each to the route list. */
    method AppendToMission(points: seq<LonLat>)
      modifies this`lonLatMission
      ensures lonLatMission == old(lonLatMission) + points
    {
      for k := 0 to |points|
        invariant lonLatMission == old(lonLatMission) + points[..k]
      {
        AppendNext(old(lonLatMission), points, k);
        lonLatMission := lonLatMission + [points[k]];
      }
      assert points[..|points|] == points;
    }

    /** The loop over the reversed route, copying each point to the route and polygon lists. */
    method AppendToMissionAndPolygon(points: seq<LonLat>)
      modifies this`lonLatMission, this`lonLatPolygon
      ensures lonLatMission == old(lonLatMission) + points
      ensures lonLatPolygon == old(lonLatPolygon) + points
    {
      for k := 0 to |points|
        invariant lonLatMission == old(lonLatMission) + points[..k]
        invariant lonLatPolygon == old(lonLatPolygon) + points[..k]
      {
        AppendNext(old(lonLatMission), points, k);
        AppendNext(old(lonLatPolygon), points, k);
        lonLatMission := lonLatMission + [points[k]];
        lonLatPolygon := lonLatPolygon + [points[k]];
      }
      assert points[..|points|] == points;
    }

    /** The loop over the slice `[0:1]` of the line, closing the polygon list. */
    method AppendToPolygon(points: seq<LonLat>)
      modifies this`lonLatPolygon
      ensures lonLatPolygon == old(lonLatPolygon) + points
    {
      for k := 0 to |points|
        invariant lonLatPolygon == old(lonLatPolygon) + points[..k]
      {
        AppendNext(old(lonLatPolygon), points, k);
        lonLatPolygon := lonLatPolygon + [points[k]];
      }
      assert points[..|points|] == points;
    }

    /**
      The last loop of `read_segments`: appends every boundary point's
      longitude to `lonPolygon` and its latitude to `latPolygon`.
    */
    method SplitPolygon()
      requires Valid()
      modifies this`lonPolygon, this`latPolygon
      ensures Valid()
      ensures lonPolygon == old(lonPolygon) + Lons(lonLatPolygon)
      ensures latPolygon == old(latPolygon) + Lats(lonLatPolygon)
    {
      var ring := lonLatPolygon;
      for k := 0 to |ring|
        invariant lonPolygon == old(lonPolygon) + Lons(ring[..k])
        invariant latPolygon == old(latPolygon) + Lats(ring[..k])
      {
        SplitNext(ring, k);
        lonPolygon := lonPolygon + [ring[k].lon];
        latPolygon := latPolygon + [ring[k].lat];
      }
      assert ring[..|ring|] == ring;
    }

    /**
      Stores the haversine distance between the first and the last point of
      the planned line; IndexError, with `distance` untouched, when there is
      no track or the line has no points.
    */
    method CalculateLineDistance() returns (outcome: Outcome)
      modifies this`distance
      ensures outcome.Fail? <==> segment == [] || segment[0] == []
      ensures outcome.Fail? ==> outcome.error == IndexError && distance == old(distance)
      ensures outcome.Pass? ==>
        distance == Some(Haversine(np, earthRadius, segment[0][0], segment[0][|segment[0]| - 1]))
    {
      if segment == [] {
        return Fail(IndexError);
      }
      var d := LineDistance(np, earthRadius, segment[0]);
      if d.Err? {
        return Fail(d.error);
      }
      distance := Some(d.value);
      return Pass;
    }

    /**
      Stores the enclosed area of the boundary ring in square metres;
      IndexError, with `area` untouched, when the ring is empty. The ring is
      closed with `CloseRing`, the list form of the closing step: as written,
      `append` on the converted arrays raises AttributeError instead, a case
      rings built by `ReadSegments` from a non-empty line never reach.
    */
    method CalculateArea() returns (outcome: Outcome)
      requires Valid()
      modifies this`area
      ensures outcome.Fail? <==> latPolygon == []
      ensures outcome.Fail? ==> outcome.error == IndexError && area == old(area)
      ensures outcome.Pass? ==>
        area == Some(EnclosedArea(np, earthRadius, latPolygon, lonPolygon).value) &&
        area.value <= 2.0 * PI * Square(earthRadius)
    {
      var r := EnclosedArea(np, earthRadius, latPolygon, lonPolygon);
      if r.Err? {
        return Fail(r.error);
      }
      area := Some(r.value);
      return Pass;
    }

    /**
      Stores `area / distance` with float64 division, so a zero distance
      gives an infinity or NaN rather than an error; TypeError, with
      `avDeviation` untouched, while either operand is still None.
    */
    method CalculateAvDeviation() returns (outcome: Outcome)
      modifies this`avDeviation
      ensures outcome.Fail? <==> area.None? || distance.None?
      ensures outcome.Fail? ==> outcome.error == TypeError && avDeviation == old(avDeviation)
      ensures outcome.Pass? ==> avDeviation == Some(Divide(area.value, distance.value))
    {
      if area.None? || distance.None? {
        return Fail(TypeError);
      }
      avDeviation := Some(Divide(area.value, distance.value));
      return Pass;
    }
  }
}
