# Enclosed area between a planned line and a route taken

A Dafny model of the reader class in `GpxReader.py`. The reader takes two
GPS tracks: a planned straight line and the route that was actually taken.
It builds point lists from them:

- the line out and back, for plotting;
- the route out and back, for plotting;
- the boundary ring: the line forward, the route backward, then the line's
  first point again;
- the ring split into a longitude list and a latitude list.

From these lists it computes three results:

- the haversine distance between the two ends of the line;
- the area enclosed between the two tracks, by the line integral of Green's
  theorem on a sphere;
- the average deviation, which is `area / distance`.

Modules:

- `PyMath`:
  - numpy's `pi`, `deg2rad` and the floor-based float `%`;
  - the wrap into [-pi, pi);
  - a `Numpy` record whose fields stand for `sin`, `cos`, `arctan2` and `sqrt`.
- `Sequences`: reversal, `diff` and `sum` on lists, with their algebra.
- `Tracks`:
  - the track point `LonLat`;
  - the out-and-back lists;
  - the boundary ring;
  - the split into longitudes and latitudes.
- `Errors`: `None`, the exceptions the reader can raise, and result values.
- `Geodesy`: the line distance and numpy's float64 division.
- `SphericalArea`:
  - the area computation, step by step;
  - lemmas about the integral, including that it is the same in either
    direction and zero for a route that retraces the line.
- `Reader`: the class `GpxReader`.
  - Its fields are the source's lists, updated in place by `for` loops.
  - The constructor calls the steps in the source's order.

The constructor records an exception in the field `raised` rather than
propagating it. The steps after a raising step do not run.

## Model

| member | source | states |
|---|---|---|
| Reader.GpxReader.constructor | GpxReader.py:14-39 | Sets the fields the steps read, then runs the steps in the source's order: read the segments, distance, area, deviation. With an empty line, the distance step raises IndexError and the area and deviation stay None. Otherwise all three results are stored, and the deviation is area / distance. |
| Reader.GpxReader.ReadSegments | GpxReader.py:53-79 | Appends both tracks to `segment`. The line list grows by the line out and back, and the route list by the route out and back. The polygon list grows by the boundary ring. The two coordinate lists grow by the ring's longitudes and latitudes. The result fields are unchanged. |
| Reader.GpxReader.AppendToLineAndPolygon | GpxReader.py:56-58 | The loop over the line appends every point, in order, to both the line list and the polygon list. |
| Reader.GpxReader.AppendToLine | GpxReader.py:60-62 | The loop over the reversed line appends every point to the line list. |
| Reader.GpxReader.AppendToMission | GpxReader.py:64-65 | The loop over the route appends every point to the route list. |
| Reader.GpxReader.AppendToMissionAndPolygon | GpxReader.py:67-70 | The loop over the reversed route appends every point to both the route list and the polygon list. |
| Reader.GpxReader.AppendToPolygon | GpxReader.py:72-74 | The loop over the slice `[0:1]` of the line appends the closing point, if there is one, to the polygon list. |
| Reader.GpxReader.SplitPolygon | GpxReader.py:76-79 | Appends every polygon point's longitude and latitude to the two coordinate lists, which stay the same length. |
| Reader.GpxReader.CalculateLineDistance | GpxReader.py:89-108 | Raises IndexError, leaving `distance` unchanged, exactly when there is no segment or the line is empty. Otherwise stores the haversine distance between the line's first and last points. |
| Reader.GpxReader.CalculateArea | GpxReader.py:110-149 | Uses the corrected closing step (see "## Findings"). It fails with IndexError exactly when the ring is empty, leaving `area` unchanged. Otherwise it stores the enclosed area, which is at most half the sphere's surface. As written, a ring whose end latitudes differ raises AttributeError instead; the reader's own rings never have such ends. |
| Reader.GpxReader.CalculateAvDeviation | GpxReader.py:151-155 | Raises TypeError exactly when the area or the distance is still None. Otherwise stores area / distance as a float64 quotient. |
| Tracks.OutAndBack | GpxReader.py:56-70 | A track followed by itself reversed has twice the track's length. |
| Tracks.OutAndBackHalves | GpxReader.py:56-70 | The first half of the out-and-back list is the track and the second half is the track reversed. |
| Tracks.OutAndBackIsPalindrome | GpxReader.py:56-70 | The out-and-back list reads the same in both directions. |
| Tracks.FirstPoint | GpxReader.py:72 | The slice `[0:1]` holds the first point, or nothing for an empty track. |
| Tracks.BoundaryRing | GpxReader.py:56-74 | The ring has one point per line point and per route point, plus one closing point when the line is not empty. |
| Tracks.BoundaryRingShape | GpxReader.py:56-74 | The ring starts with the line and continues with the route backwards. It ends on its first point, which is the line's first point. With no line it is the route reversed. |
| Tracks.ReversedRingIsClosed | GpxReader.py:56-74 | The reversed ring also starts and ends on the line's first point. |
| Tracks.RetraceRing | GpxReader.py:56-74 | The ring of a line against itself is the line out and back plus its first point. |
| Tracks.Lons | GpxReader.py:76-78 | The longitude list has one entry per ring point. |
| Tracks.Lats | GpxReader.py:76-79 | The latitude list has one entry per ring point. |
| Tracks.SplitNext | GpxReader.py:76-79 | Splitting one more point extends each coordinate list by that point's component. |
| Tracks.SplitAt | GpxReader.py:76-79 | Entry i of each coordinate list is the matching component of ring point i. |
| Tracks.SplitPairRoundTrip | GpxReader.py:76-79 | Pairing the two coordinate lists again gives back the ring. |
| Sequences.Reverse | GpxReader.py:60 | The slice `[::-1]` has the same length as the track; reversing twice gives it back (`ReverseReverse`). |
| Sequences.ReverseReverse | GpxReader.py:60 | Reversing twice gives back the list. |
| Sequences.Diff | GpxReader.py:135 | `diff` has one entry per consecutive pair, each the later value minus the earlier. |
| Sequences.DiffTelescopes | GpxReader.py:135 | The differences of a list add up to its last value minus its first. |
| Sequences.Sum | GpxReader.py:145 | Python's `sum`, adding from the left. It has no contract of its own: its algebra is `SumAppend`, `SumReverse`, `SumNegated` and `DiffTelescopes`. |
| Sequences.SumAppend | GpxReader.py:145 | `sum` of a concatenation is the sum of the sums. |
| Sequences.SumReverse | GpxReader.py:145 | Reversing the entries leaves the sum unchanged. |
| Sequences.SumNegated | GpxReader.py:145 | `sum` of the negated entries is the negated sum. |
| PyMath.Abs | GpxReader.py:145 | `abs` is non-negative and is the value or its negation. |
| PyMath.Deg2Rad | GpxReader.py:94-97 | `deg2rad` of one value keeps its sign, maps 0 to 0 only, and maps 180 degrees to `pi`. |
| PyMath.Radians | GpxReader.py:118-119 | `deg2rad` on a list converts every entry and keeps the length. |
| PyMath.Mod | GpxReader.py:131 | Python's float `%` by a positive modulus: the result lies in [0, m) and differs from the operand by a whole number of m. |
| PyMath.Wrap | GpxReader.py:136 | `(d + pi) % (2 * pi) - pi` lies in [-pi, pi) and differs from d by whole turns. |
| PyMath.WrapUnique | GpxReader.py:136 | The wrap is the only value in [-pi, pi) that differs from d by whole turns. |
| PyMath.WrapPrincipal | GpxReader.py:136 | A value already in [-pi, pi) is left unchanged. |
| PyMath.WrapPeriodic | GpxReader.py:136 | Adding whole turns does not change the wrap. |
| PyMath.WrapNegate | GpxReader.py:136 | The wrap of -d is the negated wrap of d, unless the wrap of d is -pi. |
| PyMath.WrapNegateAtHalfTurn | GpxReader.py:136 | When the wrap of d is -pi, the wrap of -d is -pi again, not pi. |
| PyMath.SumsCongruent | GpxReader.py:136-145 | Entries that each differ by whole turns have sums that differ by whole turns. |
| SphericalArea.Colatitude | GpxReader.py:127-128 | The haversine colatitude of one point from (0, 0). It has no contract of its own: its trigonometry is abstract. |
| SphericalArea.Colatitudes | GpxReader.py:127-128 | One colatitude per point of the ring. |
| SphericalArea.Azimuth | GpxReader.py:131 | The azimuth taken `% (2 * pi)` lies in [0, 2 pi). |
| SphericalArea.Azimuths | GpxReader.py:131 | One azimuth per point of the ring, each in [0, 2 pi). |
| SphericalArea.AzimuthDeltas | GpxReader.py:135-136 | There is one wrapped step per consecutive pair of azimuths. Each step lies in [-pi, pi) and is the raw difference up to whole turns. |
| SphericalArea.AzimuthStepsWind | GpxReader.py:131-136 | The wrapped steps add up to the net change of azimuth plus whole turns. Around a ring that returns to its first azimuth, they add up to whole turns. |
| SphericalArea.Midpoints | GpxReader.py:138-139 | `colat[0:-1] + diff(colat) / 2` has n - 1 entries. Each is the mean of two consecutive colatitudes and lies between them. |
| SphericalArea.Integrand | GpxReader.py:142 | `(1 - cos(mid)) * daz` for one step is zero when the azimuth step is zero or the cosine is 1. |
| SphericalArea.SegmentTerm | GpxReader.py:136-142 | The integrand of the step between two consecutive points. It has no contract of its own: `SegmentTermReversed` and `SegmentTermStill` state what it does. |
| SphericalArea.Integrands | GpxReader.py:135-142 | There is one integrand per step of the ring: one minus the cosine of the midpoint colatitude, times the wrapped azimuth step. |
| SphericalArea.Fraction | GpxReader.py:145 | The integral divided by 4 pi, taken absolutely, is never negative. |
| SphericalArea.RingFraction | GpxReader.py:127-145 | The fraction of the sphere enclosed by a closed ring in radians is never negative. |
| SphericalArea.Fold | GpxReader.py:147 | `min(f, 1 - f)` is one of the two and at most either, so at most one half. For a non-negative f, it is never negative exactly when f is at most 1. |
| SphericalArea.SphereArea | GpxReader.py:149 | `f * 4 * pi * R ** 2` is zero for a zero fraction or radius, and is the sphere's whole surface for f = 1. |
| SphericalArea.SphereAreaBounds | GpxReader.py:149 | Scaling by 4 pi R squared keeps a folded fraction within half the sphere's surface. For a non-zero radius it keeps the fraction's sign. |
| SphericalArea.CloseRing | GpxReader.py:121-124 | The closing step with list semantics, the corrected member of the finding below. An empty ring raises IndexError. Only latitudes are compared. When the first and last latitudes differ, the first point is appended; otherwise the lists are unchanged. |
| SphericalArea.CloseRingAsWritten | GpxReader.py:121-124 | As written, `append` is called on numpy arrays. The step fails exactly when the ring is empty or its ends differ in latitude. |
| SphericalArea.CloseRingAsWrittenRaises | GpxReader.py:121-124 | On a ring from latitude 0 to latitude 1, the written step raises AttributeError, while the list step closes the ring. |
| SphericalArea.CloseRingAgrees | GpxReader.py:121-124 | Wherever the written step succeeds, the list step gives the same result. |
| SphericalArea.ClosedRing | GpxReader.py:118-124 | The stored lists converted to radians and closed with `CloseRing`. It has no contract of its own: `CloseRing` states the closing step. |
| SphericalArea.EnclosedArea | GpxReader.py:110-149 | `calculate_area` with the corrected closing step (see "## Findings"). It fails with IndexError exactly for an empty ring. Otherwise the area is at most half the sphere's surface. As written, a ring whose end latitudes differ raises AttributeError instead. |
| SphericalArea.EnclosedAreaSign | GpxReader.py:145-149 | The area is non-negative exactly when the enclosed fraction is at most the whole sphere. |
| SphericalArea.BoundaryRingNeedsNoClosing | GpxReader.py:72-74 | A ring built from a non-empty line already ends on its first latitude, so the closing step leaves it unchanged. |
| SphericalArea.IntegrandsAppend | GpxReader.py:135-142 | Joining two paths joins their integrands, with one term for the step between them. |
| SphericalArea.SumIntegrandsAppend | GpxReader.py:142-145 | The integral of two joined paths is the sum of their integrals plus the joining step. |
| SphericalArea.SegmentTermReversed | GpxReader.py:136-142 | Walking a step backwards negates its term, unless its wrapped azimuth step is -pi. |
| SphericalArea.SegmentTermStill | GpxReader.py:136-142 | A step that stays at the same point contributes nothing. |
| SphericalArea.IntegrandsReversed | GpxReader.py:135-142 | For paths with no step that wraps to -pi, the integrands of the reversed path are those of the path, reversed and negated. |
| SphericalArea.FractionReversed | GpxReader.py:142-145 | For paths with no step that wraps to -pi, the reversed path's integral is the negated integral, so the enclosed fraction is the same in both directions. |
| SphericalArea.RetraceSumsToZero | GpxReader.py:142-145 | For paths with no step that wraps to -pi, the path followed by its reverse and a step back to its start has a zero integral. |
| SphericalArea.TrackArrays | GpxReader.py:118-131 | The colatitude and azimuth arrays computed from the split, converted lists are those of the ring's points. |
| SphericalArea.TrackArraysReversed | GpxReader.py:127-131 | The arrays of a reversed ring are the arrays of the ring, reversed. |
| SphericalArea.TrackArraysRetraced | GpxReader.py:127-131 | The arrays of a line out, back and closed are the line's arrays out, back and closed. |
| SphericalArea.EnclosedAreaOfTrack | GpxReader.py:110-149 | For a ring whose ends share a latitude, the area is the folded fraction of its points' arrays, scaled to the sphere. |
| SphericalArea.RetracedRouteEnclosesNothing | GpxReader.py:56-149 | When the route retraces the planned line exactly, the enclosed area is zero. |
| SphericalArea.ReversedRingEnclosesSameArea | GpxReader.py:110-149 | Traversing a closed ring in the opposite direction gives the same area. |
| Geodesy.HalfChord | GpxReader.py:99-104 | The haversine term `a` is zero for two identical points, given sin(0) = 0. |
| Geodesy.CentralAngle | GpxReader.py:105 | `2 * arctan2(sqrt(a), sqrt(1 - a))` is zero for a = 0, given the exact values at 0 and 1. |
| Geodesy.Haversine | GpxReader.py:94-108 | The distance between two points, `R * c`. It has no contract of its own: `HaversineSamePoint` and `HaversineSymmetric` state what it does. |
| Geodesy.LineDistance | GpxReader.py:89-108 | Raises IndexError exactly for an empty line. Otherwise gives the haversine distance from the first point to the last. |
| Geodesy.LineDistanceIgnoresInterior | GpxReader.py:94-97 | Only the two ends of the line matter: interior points do not change the distance. |
| Geodesy.HaversineSamePoint | GpxReader.py:99-108 | A line that ends where it starts has length zero, given the exact values of sin, sqrt and arctan2 at 0 and 1. |
| Geodesy.HalfChordSymmetric | GpxReader.py:104 | With an odd `sin`, the haversine term does not depend on the order of the two points. |
| Geodesy.HaversineSymmetric | GpxReader.py:99-108 | With an odd `sin`, the distance is the same in both directions. |
| Geodesy.Divide | GpxReader.py:155 | float64 `area / distance` with no zero guard. It is finite exactly when the distance is non-zero, and then times the distance gives back the area. It is NaN exactly for 0 / 0. Otherwise it is an infinity with the sign of the area. |

## Left out

- Reading the gpx files: the file I/O and `gpxpy.parse` are not modelled. `ReadSegments` takes the two point lists directly, and `segment` holds point lists rather than parsed segment objects.
- `create_polygons` (lines 81-87) builds shapely `Polygon` objects, which are used only for plotting. Shapely is not part of this model. Shapely raises ValueError for a coordinate list of one to three points. The constructor would raise it before the distance step, and the model does not capture that.
- `plotter`, `print_statistics`, the getters and `main.py` are not modelled: they are output and plotting only.
- The numerical values of numpy's `sin`, `cos`, `arctan2` and `sqrt` are not modelled. They are parameters in a `Numpy` record. What is proved holds for any such functions, except where a lemma names the exact values or the oddness it needs.
- Floating-point rounding is not modelled: arithmetic is on exact reals. `pi` is the exact rational 3.141592653589793.
- Geodesy.Divide: does not model signed zeros, so a zero distance counts as +0 and the infinity's sign is the area's.
- SphericalArea.ReversedRingEnclosesSameArea: is stated only for rings where no wrapped azimuth step is exactly -pi. The wrap sends both pi and -pi to -pi, so at such a step the reversal is not a negation.
- SphericalArea.RetracedRouteEnclosesNothing: carries the same -pi exclusion, for the same reason.
- SphericalArea.IntegrandsReversed, SphericalArea.FractionReversed, SphericalArea.RetraceSumsToZero: carry the same -pi exclusion, for the same reason.
- SphericalArea.Fold: does not clamp. For an integral over more than the whole sphere (f > 1) the result is negative, as in the source; `EnclosedAreaSign` states when that happens.
- SphericalArea.EnclosedArea, Reader.GpxReader.CalculateArea: use the corrected closing step `CloseRing`. As written, a ring whose first and last latitudes differ raises AttributeError at line 123 (`CloseRingAsWritten`). Rings built by `read_segments` from a non-empty line never reach that branch (`BoundaryRingNeedsNoClosing`).
- Exceptions are modelled as values. The constructor records the first one in `raised` and stops, rather than propagating it to the caller.
- `gpx_data`, `line`, `mission` and `polygon` are fields the calculations never read, so they are not fields of the model's class.

## Findings

| source | as written | input that shows it | evidently intended | confidence | as-written member | corrected member |
|---|---|---|---|---|---|---|
| GpxReader.py:122-124 | `deg2rad` returns numpy arrays, which have no `append` method. Closing a ring whose first and last latitudes differ raises AttributeError. | A ring with latitudes [0, 1] and longitudes [0, 0]. | Append the first point to close the ring, as a list `append` would. The rings the reader itself builds never need closing (`BoundaryRingNeedsNoClosing`), so the reader's own results are not affected. | not executed | SphericalArea.CloseRingAsWritten, SphericalArea.CloseRingAsWrittenRaises | SphericalArea.CloseRing |
