/** The records a GNSS solution (.pos) file is turned into once its lines have
    been split into whitespace-separated columns. */
module Records {

  /** One data line of a solution file: column 1 (time of the epoch), column 3
      (longitude), column 4 (height) and column 5 (fix-quality flag). */
  datatype SolutionRow = SolutionRow(timestamp: string, longitude: real, altitude: real, quality: int)

  /** What the loader keeps of a quality-1 row: `[timestamp, longitude, altitude]`. */
  datatype Fix = Fix(timestamp: string, longitude: real, altitude: real)

  /** A `[longitude, altitude]` pair, one point of a plotted series. */
  datatype Point = Point(longitude: real, altitude: real)

  function PointOf(f: Fix): Point {
    Point(f.longitude, f.altitude)
  }
}
