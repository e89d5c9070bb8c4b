/** Station positions and the trilateration entry point (Model/Point2D.cs, Model/Satellite.cs). */
module Geometry {
  import opened Wrappers

  /** A position in the plane; the source uses float64 coordinates. */
  datatype Point = Point(x: real, y: real)

  /** A configured station: its name and fixed coordinates. */
  datatype Satellite = Satellite(name: string, coordinates: Point)

  /** The floating-point part of trilateration (Heron's formula, the height above
      the line through the first two stations, the fixed choice of candidate),
      taken as given: anchors and distances in, the chosen point out. */
  type Solver = (Point, real, Point, real, Point, real) -> Point

  /** Point2D.Triangulation: no position when any measured distance is zero,
      otherwise the point the solver computes from the three stations. */
  function Triangulation(solve: Solver, s1: Satellite, r1: real, s2: Satellite, r2: real,
                         s3: Satellite, r3: real): (p: Option<Point>)
    ensures p.None? <==> (r1 == 0.0 || r2 == 0.0 || r3 == 0.0)
  {
    if r1 == 0.0 || r2 == 0.0 || r3 == 0.0 then None
    else Some(solve(s1.coordinates, r1, s2.coordinates, r2, s3.coordinates, r3))
  }
}
