/** The data shaping of the chart components (frontend/src/components/ui/charts.tsx): the
    pivot of column-oriented series into one data point per category shared by the Line, Bar
    and Area charts, the slice lists of the Pie and RadialBar charts, and the default palette. */
module Charts {
  import opened Records

  /** A series of a Line, Bar or Area chart: one number per category. */
  datatype Series = Series(name: string, data: seq<real>, color: Option<string>)

  /** A series of a Pie or RadialBar chart: a single number. */
  datatype Measure = Measure(name: string, data: real, color: Option<string>)

  /** A field of a data point: the category label or a series value. */
  datatype Field = Label(text: string) | Number(value: real)

  /** A data point: a JavaScript object from field name to field. */
  type DataPoint = map<string, Field>

  const NameKey := "name"

  const Palette: seq<string> := [
    "var(--color-chart-1)", "var(--color-chart-2)", "var(--color-chart-3)",
    "var(--color-chart-4)", "var(--color-chart-5)"]

  // ---------------------------------------------------------------- the category pivot

  /** `s.data[index] || 0`: a missing entry reads as 0. */
  function ValueAt(data: seq<real>, index: int): real
  {
    if 0 <= index < |data| then data[index] else 0.0
  }

  /** The assignments `dataPoint[s.name] = ...` of `series.forEach`, in series order. */
  function PointAssignments(series: seq<Series>, index: int): (kvs: seq<(string, Field)>)
    ensures |kvs| == |series|
    ensures forall j :: 0 <= j < |kvs| ==> kvs[j].0 == series[j].name
  {
    seq(|series|, j requires 0 <= j < |series| => (series[j].name, Number(ValueAt(series[j].data, index))))
  }

  /** The data point of one category. */
  function Point(category: string, series: seq<Series>, index: int): DataPoint
  {
    Assign(map[NameKey := Label(category)], PointAssignments(series, index))
  }

  /** `formatData` of the Line, Bar and Area charts: one data point per category. */
  function FormatData(categories: seq<string>, series: seq<Series>): (points: seq<DataPoint>)
    ensures |points| == |categories|
  {
    seq(|categories|, i requires 0 <= i < |categories| => Point(categories[i], series, i))
  }

  function Names(series: seq<Series>): set<string>
  {
    set j | 0 <= j < |series| :: series[j].name
  }

  /** Every data point has the `name` field and one field per series name, and nothing else;
      a series called `__proto__` creates no field. */
  lemma PointKeys(categories: seq<string>, series: seq<Series>, i: int)
    requires 0 <= i < |categories|
    ensures FormatData(categories, series)[i].Keys == {NameKey} + (Names(series) - {ProtoKey})
  {
    var kvs := PointAssignments(series, i);
    AssignKeys(map[NameKey := Label(categories[i])], kvs);
    assert KeysOf(kvs) == Names(series) by {
      forall k | k in Names(series) ensures k in KeysOf(kvs) {
        var j :| 0 <= j < |series| && series[j].name == k;
        assert kvs[j].0 == k;
      }
    }
  }

  /** Point i is labelled with category i, unless a series is itself called `name`. */
  lemma PointLabel(categories: seq<string>, series: seq<Series>, i: int)
    requires 0 <= i < |categories|
    requires NameKey !in Names(series)
    ensures NameKey in FormatData(categories, series)[i]
    ensures FormatData(categories, series)[i][NameKey] == Label(categories[i])
  {
    var kvs := PointAssignments(series, i);
    forall l | 0 <= l < |kvs| ensures kvs[l].0 != NameKey {
      assert series[l].name in Names(series);
    }
    AssignUntouched(map[NameKey := Label(categories[i])], kvs, NameKey);
  }

  /** Under a series' name, point i holds that series' entry i (0 when it has none); when two
      series share a name, the later one wins, and a series called `name` replaces the label.
      (A series called `__proto__` has no field, as `PointKeys` says.) */
  lemma PointValue(categories: seq<string>, series: seq<Series>, i: int, j: int)
    requires 0 <= i < |categories| && 0 <= j < |series| && series[j].name != ProtoKey
    requires forall l :: j < l < |series| ==> series[l].name != series[j].name
    ensures series[j].name in FormatData(categories, series)[i]
    ensures FormatData(categories, series)[i][series[j].name] == Number(ValueAt(series[j].data, i))
  {
    AssignLastWins(map[NameKey := Label(categories[i])], PointAssignments(series, i), j);
  }

  /** Reading one field back out of every data point: the number there, or 0. */
  function Column(points: seq<DataPoint>, key: string): seq<real>
  {
    seq(|points|, i requires 0 <= i < |points| =>
      if key in points[i] && points[i][key].Number? then points[i][key].value else 0.0)
  }

  /** The labels of the data points. */
  function Labels(points: seq<DataPoint>): seq<string>
  {
    seq(|points|, i requires 0 <= i < |points| =>
      if NameKey in points[i] && points[i][NameKey].Label? then points[i][NameKey].text else "")
  }

  /** The pivot loses nothing when series names are distinct, none is `name`, and every series
      has one entry per category: the categories and each series but one called `__proto__`
      can be read back. */
  lemma PivotRoundTrip(categories: seq<string>, series: seq<Series>, j: int)
    requires 0 <= j < |series|
    requires forall a, b :: 0 <= a < b < |series| ==> series[a].name != series[b].name
    requires NameKey !in Names(series)
    requires |series[j].data| == |categories| && series[j].name != ProtoKey
    ensures Labels(FormatData(categories, series)) == categories
    ensures Column(FormatData(categories, series), series[j].name) == series[j].data
  {
    var points := FormatData(categories, series);
    forall i | 0 <= i < |categories|
      ensures Labels(points)[i] == categories[i]
      ensures Column(points, series[j].name)[i] == series[j].data[i]
    {
      PointLabel(categories, series, i);
      PointValue(categories, series, i, j);
    }
  }

  // ---------------------------------------------------------------- pie and radial bar

  datatype Slice = Slice(name: string, value: real, color: Option<string>)

  /** `formatData` of the Pie chart: one slice per series, in series order, carrying the
      series' name, number and colour under the names the chart reads. */
  function PieData(series: seq<Measure>): (slices: seq<Slice>)
    ensures |slices| == |series|
    ensures forall i :: 0 <= i < |series| ==>
      slices[i].name == series[i].name && slices[i].value == series[i].data && slices[i].color == series[i].color
  {
    seq(|series|, i requires 0 <= i < |series| => Slice(series[i].name, series[i].data, series[i].color))
  }

  datatype Bar = Bar(name: string, value: real, fill: string)

  /** `s.color || getDefaultColor(series.indexOf(s))`: an absent or empty colour falls back to
      the palette colour of the series' position. */
  function Fill(color: Option<string>, index: nat): string
  {
    if color.Some? && color.value != "" then color.value else DefaultColor(index)
  }

  /** `formatData` of the RadialBar chart: one bar per series, filled with its colour. */
  function RadialBarData(series: seq<Measure>): (bars: seq<Bar>)
    ensures |bars| == |series|
  {
    seq(|series|, i requires 0 <= i < |series| => Bar(series[i].name, series[i].data, Fill(series[i].color, i)))
  }

  /** Each bar keeps its series' name and value; its fill is the series' own colour when it
      has a non-empty one, and otherwise a palette colour, the same for positions five apart. */
  lemma RadialBarFills(series: seq<Measure>, i: int)
    requires 0 <= i < |series|
    ensures var bar := RadialBarData(series)[i];
      && bar.name == series[i].name && bar.value == series[i].data
      && (series[i].color.Some? && series[i].color.value != "" ==> bar.fill == series[i].color.value)
      && (series[i].color.None? || series[i].color.value == "" ==> bar.fill in Palette)
      && (series[i].color.None? && i + 5 < |series| && series[i + 5].color.None? ==>
            RadialBarData(series)[i + 5].fill == bar.fill)
  {
    DefaultColorPeriodic(i);
  }

  /** The Pie and RadialBar charts show the same series alike: slice and bar i have the same
      name and value, and the bar is filled with the slice's colour whenever that colour is set
      and non-empty. */
  lemma PieMatchesRadialBar(series: seq<Measure>, i: int)
    requires 0 <= i < |series|
    ensures var slice := PieData(series)[i];
      var bar := RadialBarData(series)[i];
      && slice.name == bar.name && slice.value == bar.value
      && (slice.color.Some? && slice.color.value != "" ==> bar.fill == slice.color.value)
  {
  }

  /** `getDefaultColor`: the palette, cycled. */
  function DefaultColor(index: nat): (c: string)
    ensures c in Palette
  {
    Palette[index % |Palette|]
  }

  /** The default colours repeat every five positions. */
  lemma DefaultColorPeriodic(index: nat)
    ensures DefaultColor(index + 5) == DefaultColor(index)
  {
    assert (index + 5) % 5 == index % 5;
  }

  /** Five consecutive positions get five different colours. */
  lemma DefaultColorsDiffer(i: nat, j: nat)
    requires i < j < i + 5
    ensures DefaultColor(i) != DefaultColor(j)
  {
    assert i % 5 != j % 5;
    var a, b := i % 5, j % 5;
    assert Palette[a][18] != Palette[b][18];
  }
}
