/** One region's pass over a gridded dataset: locate the two nearest
    longitude and latitude indices, form the four surrounding cells with the
    distance pairing the program uses, mask them and weight them. */
module Grid {
  import opened Wrappers
  import Locator
  import opened Interpolation

  /** A gridded dataset: coordinate axes and values indexed [time][lat][lon]. */
  datatype Grid = Grid(lons: seq<real>, lats: seq<real>, precip: seq<seq<seq<real>>>)

  /** The value array matches the axes on its second and third dimensions. */
  predicate Valid(g: Grid) {
    && (forall t :: 0 <= t < |g.precip| ==> |g.precip[t]| == |g.lats|)
    && (forall t, a :: 0 <= t < |g.precip| && 0 <= a < |g.precip[t]| ==> |g.precip[t][a]| == |g.lons|)
  }

  /** The full time series of the cell at (`lat`, `lon`). */
  function CellSeries(g: Grid, lat: nat, lon: nat): (r: seq<real>)
    requires Valid(g) && lat < |g.lats| && lon < |g.lons|
    ensures |r| == |g.precip|
  {
    seq(|g.precip|, t requires 0 <= t < |g.precip| => g.precip[t][lat][lon])
  }

  /** Squared Euclidean distance, in degrees, from the centroid to the
      coordinate (lons[lon], lats[lat]). */
  function SqDist(g: Grid, lon: nat, lat: nat, qlon: real, qlat: real): real
    requires lon < |g.lons| && lat < |g.lats|
  {
    (g.lons[lon] - qlon) * (g.lons[lon] - qlon) + (g.lats[lat] - qlat) * (g.lats[lat] - qlat)
  }

  /** `d` is the (positive) square root of `sq`. */
  predicate IsRoot(d: real, sq: real) {
    d > 0.0 && d * d == sq
  }

  /** The two nearest indices on each axis. */
  datatype Cells = Cells(lon1: nat, lon2: nat, lat1: nat, lat2: nat)

  predicate CellsInRange(g: Grid, c: Cells) {
    c.lon1 < |g.lons| && c.lon2 < |g.lons| && c.lat1 < |g.lats| && c.lat2 < |g.lats|
  }

  /** The four distances, numbered as the program numbers them. */
  datatype Distances = Distances(d1: real, d2: real, d3: real, d4: real)

  /** The distances as the program computes them: distance 2 is taken to
      (lon1, lat2) and distance 3 to (lon2, lat1). */
  predicate ProgramDistances(g: Grid, qlon: real, qlat: real, c: Cells, ds: Distances)
    requires CellsInRange(g, c)
  {
    && IsRoot(ds.d1, SqDist(g, c.lon1, c.lat1, qlon, qlat))
    && IsRoot(ds.d2, SqDist(g, c.lon1, c.lat2, qlon, qlat))
    && IsRoot(ds.d3, SqDist(g, c.lon2, c.lat1, qlon, qlat))
    && IsRoot(ds.d4, SqDist(g, c.lon2, c.lat2, qlon, qlat))
  }

  /** Locates the two nearest longitude and latitude indices independently. */
  method Locate(g: Grid, qlon: real, qlat: real) returns (c: Cells)
    requires |g.lons| >= 2 && |g.lats| >= 2
    ensures CellsInRange(g, c)
    ensures Locator.IsNearestPair(g.lons, qlon, c.lon1, c.lon2)
    ensures Locator.IsNearestPair(g.lats, qlat, c.lat1, c.lat2)
  {
    var lon1, lon2 := Locator.NearestTwo(g.lons, qlon);
    var lat1, lat2 := Locator.NearestTwo(g.lats, qlat);
    c := Cells(lon1, lon2, lat1, lat2);
  }

  /** The four candidates in the program's order, each masked, paired
      with the program's distances 1 to 4. */
  function Surrounding(g: Grid, c: Cells, ds: Distances): (cs: seq<Candidate>)
    requires Valid(g) && CellsInRange(g, c)
    ensures |cs| == 4
  {
    [ Candidate(Mask(CellSeries(g, c.lat1, c.lon1)), ds.d1),
      Candidate(Mask(CellSeries(g, c.lat1, c.lon2)), ds.d2),
      Candidate(Mask(CellSeries(g, c.lat2, c.lon1)), ds.d3),
      Candidate(Mask(CellSeries(g, c.lat2, c.lon2)), ds.d4) ]
  }

  /** Candidates 1 and 4 are weighted by their own cell's distance, but
      candidate 2, the cell (lat1, lon2), is weighted by the distance of
      (lat2, lon1), and candidate 3 the other way round. */
  lemma CrossedWeights(g: Grid, qlon: real, qlat: real, c: Cells, ds: Distances)
    requires Valid(g) && CellsInRange(g, c)
    requires ProgramDistances(g, qlon, qlat, c, ds)
    ensures var cs := Surrounding(g, c, ds);
      && cs[0].series == Mask(CellSeries(g, c.lat1, c.lon1))
      && cs[0].dist * cs[0].dist == SqDist(g, c.lon1, c.lat1, qlon, qlat)
      && cs[1].series == Mask(CellSeries(g, c.lat1, c.lon2))
      && cs[1].dist * cs[1].dist == SqDist(g, c.lon1, c.lat2, qlon, qlat)
      && cs[2].series == Mask(CellSeries(g, c.lat2, c.lon1))
      && cs[2].dist * cs[2].dist == SqDist(g, c.lon2, c.lat1, qlon, qlat)
      && cs[3].series == Mask(CellSeries(g, c.lat2, c.lon2))
      && cs[3].dist * cs[3].dist == SqDist(g, c.lon2, c.lat2, qlon, qlat)
  {
  }

  lemma AnyIncludedOfFour(cs: seq<Candidate>)
    requires |cs| == 4
    ensures AnyIncluded(cs) <==>
      Complete(cs[0].series) || Complete(cs[1].series) || Complete(cs[2].series) || Complete(cs[3].series)
  {
  }

  /** The interpolated series of one region.  It is all missing exactly
      when every one of the four cells holds the sentinel somewhere, and
      fully present otherwise. */
  function RegionSeries(g: Grid, qlon: real, qlat: real, c: Cells, ds: Distances): (r: seq<Option<real>>)
    requires Valid(g) && CellsInRange(g, c)
    requires ProgramDistances(g, qlon, qlat, c, ds)
    ensures |r| == |g.precip|
    ensures (&& Sentinel in CellSeries(g, c.lat1, c.lon1)
             && Sentinel in CellSeries(g, c.lat1, c.lon2)
             && Sentinel in CellSeries(g, c.lat2, c.lon1)
             && Sentinel in CellSeries(g, c.lat2, c.lon2))
            ==> r == AllMissing(|g.precip|)
    ensures (|| Sentinel !in CellSeries(g, c.lat1, c.lon1)
             || Sentinel !in CellSeries(g, c.lat1, c.lon2)
             || Sentinel !in CellSeries(g, c.lat2, c.lon1)
             || Sentinel !in CellSeries(g, c.lat2, c.lon2))
            ==> forall t :: 0 <= t < |r| ==> r[t].Some?
  {
    var cs := Surrounding(g, c, ds);
    assert WellFormed(cs, |g.precip|) by {
      assert ds.d1 > 0.0 && ds.d2 > 0.0 && ds.d3 > 0.0 && ds.d4 > 0.0;
    }
    CompleteMaskIffNoSentinel(CellSeries(g, c.lat1, c.lon1));
    CompleteMaskIffNoSentinel(CellSeries(g, c.lat1, c.lon2));
    CompleteMaskIffNoSentinel(CellSeries(g, c.lat2, c.lon1));
    CompleteMaskIffNoSentinel(CellSeries(g, c.lat2, c.lon2));
    AnyIncludedOfFour(cs);
    Idw(cs, |g.precip|)
  }
}
