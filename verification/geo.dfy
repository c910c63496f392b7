/** The geographic part of the third exercise: `make_geo` turns cleaned
    accident rows with both coordinates into point features, and `plot_geo`
    selects the alcohol- or drug-related accidents of one region and splits
    them into four yearly panels. Projections between coordinate systems
    and the drawing itself are not modelled. */
module Geo {
  import opened Seqs
  import opened Numeric
  import opened Accidents

  datatype Point = Point(x: real, y: real)

  /** A row of the GeoDataFrame: the accident and its point geometry. */
  datatype GeoAccident = GeoAccident(row: Accident, geometry: Point)

  /** `d.notna() & e.notna()`. */
  predicate HasCoordinates(row: Accident)
  {
    row.d.Present() && row.e.Present()
  }

  /** The coordinate columns were coerced to numbers, as `parse_data` does. */
  predicate CoordinatesCoerced(rows: seq<Accident>)
  {
    forall r :: r in rows ==> !r.d.Text? && !r.e.Text?
  }

  /** One kept row: `p11` coerced to a number and the point `(d, e)` attached. */
  function ToGeo(row: Accident): GeoAccident
    requires row.d.Num? && row.e.Num?
  {
    GeoAccident(row.(p11 := Coerce(row.p11)), Point(row.d.n, row.e.n))
  }

  /** `make_geo`: keep the rows with both coordinates and convert each. The
      output rows are the input rows with both coordinates, in input order,
      each with a numeric or missing `p11` (numbers unchanged) and its own
      coordinates as geometry. */
  function MakeGeo(rows: seq<Accident>): (g: seq<GeoAccident>)
    requires CoordinatesCoerced(rows)
    ensures |g| == |Filter(rows, HasCoordinates)|
    ensures forall i :: 0 <= i < |g| ==>
      g[i].row == Filter(rows, HasCoordinates)[i].(p11 := g[i].row.p11)
    ensures forall i :: 0 <= i < |g| ==>
      g[i].row.d.Num? && g[i].row.e.Num? && g[i].geometry == Point(g[i].row.d.n, g[i].row.e.n)
    ensures forall i :: 0 <= i < |g| ==> g[i].row.p11 == Coerce(Filter(rows, HasCoordinates)[i].p11)
  {
    var kept := Filter(rows, HasCoordinates);
    assert forall i :: 0 <= i < |kept| ==> kept[i] in rows;
    seq(|kept|, i requires 0 <= i < |kept| => ToGeo(kept[i]))
  }

  /** The accident rows of a GeoDataFrame, without their geometry. */
  function Rows(g: seq<GeoAccident>): seq<Accident>
  {
    seq(|g|, i requires 0 <= i < |g| => g[i].row)
  }

  /** `make_geo` is idempotent: feeding its own rows back in drops nothing,
      leaves every `p11` as it is and rebuilds the same points. */
  lemma MakeGeoIdempotent(rows: seq<Accident>)
    requires CoordinatesCoerced(rows)
    ensures CoordinatesCoerced(Rows(MakeGeo(rows)))
    ensures MakeGeo(Rows(MakeGeo(rows))) == MakeGeo(rows)
  {
    var g := MakeGeo(rows);
    var out := Rows(g);
    assert forall x :: x in out ==> HasCoordinates(x) && x.d.Num? && x.e.Num? by {
      forall x | x in out ensures HasCoordinates(x) && x.d.Num? && x.e.Num? {
        var i :| 0 <= i < |out| && out[i] == x;
        assert x == g[i].row;
      }
    }
    FilterAll(out, HasCoordinates);
    var again := MakeGeo(out);
    assert |again| == |g|;
    forall i | 0 <= i < |g| ensures again[i] == g[i] {
      assert out[i] == g[i].row;
      assert !g[i].row.p11.Text?;
      assert again[i].row.p11 == Coerce(g[i].row.p11) == g[i].row.p11;
    }
  }

  // ---------------------------------------------------------------------
  // plot_geo

  /** The region `plot_geo` shows. */
  const MapRegion := "JHM"

  /** The years of the four panels, in drawing order. */
  const PanelYears: seq<int> := [2018, 2019, 2020, 2021]

  predicate InMapRegion(g: GeoAccident)
  {
    g.row.region == MapRegion
  }

  /** `(p11 >= 3) & date.dt.year.isin(...)`: a missing `p11` compares false. */
  predicate AlcoholInPanelYears(g: GeoAccident)
  {
    g.row.p11.Num? && g.row.p11.n >= 3.0 && g.row.year in PanelYears
  }

  function YearIs(year: int): GeoAccident -> bool
  {
    (g: GeoAccident) => g.row.year == year
  }

  /** The rows drawn by `plot_geo`: first the region, then the alcohol
      code and the years; panel `i` holds those of year `2018 + i`. */
  function PlotGeoPanels(gdf: seq<GeoAccident>): (panels: seq<seq<GeoAccident>>)
    ensures |panels| == 4
    ensures forall i, g :: 0 <= i < 4 && g in panels[i] <==>
      0 <= i < 4 && g in gdf && g.row.region == MapRegion && g.row.p11.Num? && g.row.p11.n >= 3.0
      && g.row.year == 2018 + i
  {
    var selected := Filter(Filter(gdf, InMapRegion), AlcoholInPanelYears);
    seq(4, i requires 0 <= i < 4 => Filter(selected, YearIs(PanelYears[i])))
  }

  /** The selection behind the panels, as one mask. */
  predicate Drawn(g: GeoAccident)
  {
    InMapRegion(g) && AlcoholInPanelYears(g)
  }

  /** The four panels partition the selection: together they hold every
      selected row exactly as often as the selection does. */
  lemma PanelsPartitionSelection(gdf: seq<GeoAccident>)
    ensures var p := PlotGeoPanels(gdf);
      multiset(p[0]) + multiset(p[1]) + multiset(p[2]) + multiset(p[3]) == multiset(Filter(gdf, Drawn))
  {
    var selected := Filter(Filter(gdf, InMapRegion), AlcoholInPanelYears);
    FilterFilter(gdf, InMapRegion, AlcoholInPanelYears, Drawn);
    YearPanelsPartition(selected);
  }

  /** Splitting rows of the four panel years by year loses and duplicates nothing. */
  lemma YearPanelsPartition(selected: seq<GeoAccident>)
    requires forall x :: x in selected ==> x.row.year in PanelYears
    ensures multiset(Filter(selected, YearIs(2018))) + multiset(Filter(selected, YearIs(2019)))
          + multiset(Filter(selected, YearIs(2020))) + multiset(Filter(selected, YearIs(2021)))
         == multiset(selected)
  {
    var p0, p1, p2, p3 := Filter(selected, YearIs(2018)), Filter(selected, YearIs(2019)),
                          Filter(selected, YearIs(2020)), Filter(selected, YearIs(2021));
    FilterMultiset(selected, YearIs(2018));
    FilterMultiset(selected, YearIs(2019));
    FilterMultiset(selected, YearIs(2020));
    FilterMultiset(selected, YearIs(2021));
    var total := multiset(p0) + multiset(p1) + multiset(p2) + multiset(p3);
    forall x
      ensures total[x] == multiset(selected)[x]
    {
      var n, y := multiset(selected)[x], x.row.year;
      assert multiset(p0)[x] == if y == 2018 then n else 0;
      assert multiset(p1)[x] == if y == 2019 then n else 0;
      assert multiset(p2)[x] == if y == 2020 then n else 0;
      assert multiset(p3)[x] == if y == 2021 then n else 0;
      assert total[x] == multiset(p0)[x] + multiset(p1)[x] + multiset(p2)[x] + multiset(p3)[x];
      if n > 0 {
        assert x in selected;
        assert y in PanelYears;
      }
    }
    assert total == multiset(selected);
  }
}
