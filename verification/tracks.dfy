/**
  The lists the reader builds from the planned line and the route actually
  taken: the out-and-back "line" and "mission" lists used for plotting,
  the closed boundary ring between the two tracks, and the ring split into
  its longitudes and latitudes.
*/
module Tracks {
  import opened Sequences

  /** One track point, stored as the pair [longitude, latitude] in degrees. */
  datatype LonLat = LonLat(lon: real, lat: real)

  ghost predicate IsPalindrome<T>(s: seq<T>) {
    forall i :: 0 <= i < |s| ==> s[i] == s[|s| - 1 - i]
  }

  /** A track followed by the same track backwards. */
  function OutAndBack(track: seq<LonLat>): (r: seq<LonLat>)
    ensures |r| == 2 * |track|
  {
    track + Reverse(track)
  }

  /** The first half of the out-and-back list is the track, the second half its reverse. */
  lemma OutAndBackHalves(track: seq<LonLat>)
    ensures OutAndBack(track)[..|track|] == track
    ensures OutAndBack(track)[|track|..] == Reverse(track)
  {
  }

  /** The out-and-back list reads the same in both directions. */
  lemma OutAndBackIsPalindrome(track: seq<LonLat>)
    ensures IsPalindrome(OutAndBack(track))
  {
  }

  /** The slice `points[0:1]`: the first point, or nothing for an empty track. */
  function FirstPoint(track: seq<LonLat>): (r: seq<LonLat>)
    ensures |r| == if track == [] then 0 else 1
    ensures track != [] ==> r == track[..1]
  {
    if track == [] then [] else [track[0]]
  }

  /**
    The boundary ring: the planned line forward, the route taken backward,
    then the line's first point again.
  */
  function BoundaryRing(line: seq<LonLat>, mission: seq<LonLat>): (r: seq<LonLat>)
    ensures |r| == |line| + |mission| + (if line == [] then 0 else 1)
  {
    line + Reverse(mission) + FirstPoint(line)
  }

  /**
    The ring starts with the line, continues with the route backwards, and
    ends where it started; with no line it is just the route reversed.
  */
  lemma BoundaryRingShape(line: seq<LonLat>, mission: seq<LonLat>)
    ensures var r := BoundaryRing(line, mission);
      && (line == [] ==> r == Reverse(mission))
      && r[..|line|] == line
      && (forall i :: |line| <= i < |line| + |mission| ==> r[i] == mission[|line| + |mission| - 1 - i])
      && (line != [] ==> r[0] == r[|r| - 1] == line[0])
  {
  }

  /** The longitudes of a ring, in order. */
  function Lons(ring: seq<LonLat>): (r: seq<real>)
    ensures |r| == |ring|
  {
    seq(|ring|, i requires 0 <= i < |ring| => ring[i].lon)
  }

  /** The latitudes of a ring, in order. */
  function Lats(ring: seq<LonLat>): (r: seq<real>)
    ensures |r| == |ring|
  {
    seq(|ring|, i requires 0 <= i < |ring| => ring[i].lat)
  }

  /** Pairs up longitudes and latitudes again. */
  function Pair(lons: seq<real>, lats: seq<real>): (r: seq<LonLat>)
    requires |lons| == |lats|
    ensures |r| == |lons|
  {
    seq(|lons|, i requires 0 <= i < |lons| => LonLat(lons[i], lats[i]))
  }

  /** Splitting one more point of a ring extends both coordinate lists by one. */
  lemma SplitNext(ring: seq<LonLat>, k: nat)
    requires k < |ring|
    ensures Lons(ring[..k + 1]) == Lons(ring[..k]) + [ring[k].lon]
    ensures Lats(ring[..k + 1]) == Lats(ring[..k]) + [ring[k].lat]
  {
  }

  /** Splitting a ring into coordinate lists loses nothing. */
  lemma SplitPairRoundTrip(ring: seq<LonLat>)
    ensures Pair(Lons(ring), Lats(ring)) == ring
  {
  }

  /** Element i of the coordinate lists is the matching component of ring[i]. */
  lemma SplitAt(ring: seq<LonLat>, i: nat)
    requires i < |ring|
    ensures Lons(ring)[i] == ring[i].lon && Lats(ring)[i] == ring[i].lat
  {
  }

  /** The ring of the planned line against itself is the line out and back, closed. */
  lemma {:induction false} RetraceRing(line: seq<LonLat>)
    requires line != []
    ensures BoundaryRing(line, line) == OutAndBack(line) + [line[0]]
  {
  }

  /** Reversing a ring built from a non-empty line gives a ring closed at the same point. */
  lemma ReversedRingIsClosed(line: seq<LonLat>, mission: seq<LonLat>)
    requires line != []
    ensures var r := Reverse(BoundaryRing(line, mission));
      r[0] == r[|r| - 1] == line[0]
  {
  }
}
