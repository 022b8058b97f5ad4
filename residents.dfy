/** The derived tables of the Singapore residents dashboard: the male/female
    comparison, the female-to-male ratio over a fixed list of years, and the
    year-over-year growth of the total resident count with its summary. */
module Residents {
  import opened Frame
  import opened Aggregate

  const TotalResidents: string := "Total Residents"
  const TotalMaleResidents: string := "Total Male Residents"
  const TotalFemaleResidents: string := "Total Female Residents"

  /** `years_selected` of the gender ratio view. */
  const YearsSelected: seq<int> := [2000, 2003, 2006, 2009, 2012]

  /** `Count_Female / Count_Male`, or the marker when the male count is zero. */
  function Ratio(female: nat, male: nat): (r: Value)
    ensures r.Finite? <==> male > 0
    ensures r.Finite? ==> r.value * (male as real) == female as real
    ensures r.Finite? ==> (r.value < 1.0 <==> female < male)
  {
    if male == 0 then NonFinite else Finite((female as real) / (male as real))
  }

  /** `(Count - Previous_Count) / Previous_Count * 100`, or the marker when
      the previous count is zero. A finite rate is positive exactly when the
      count grew and zero exactly when it stayed. */
  function GrowthRate(count: nat, previous: nat): (r: Value)
    ensures r.Finite? <==> previous > 0
    ensures r.Finite? ==> r.value * (previous as real) == ((count - previous) as real) * 100.0
    ensures r.Finite? ==> (r.value > 0.0 <==> count > previous)
    ensures r.Finite? ==> (r.value == 0.0 <==> count == previous)
  {
    if previous == 0 then NonFinite
    else Finite(((count - previous) as real) / (previous as real) * 100.0)
  }

  /** `comparison`: the male series renamed to Male (`left`) joined on Year
      with the female series renamed to Female (`right`). One row for every
      pair of a male row and a female row of the same year. */
  function Comparison(df: seq<Record>): (r: seq<Joined>)
    ensures forall j :: j in r <==>
      (exists m :: m in df && m.residents == TotalMaleResidents && m.year == j.year && m.count == j.left) &&
      (exists f :: f in df && f.residents == TotalFemaleResidents && f.year == j.year && f.count == j.right)
  {
    var male := Select(df, TotalMaleResidents);
    var female := Select(df, TotalFemaleResidents);
    assert forall p :: p in male <==> exists m :: m in df && m.residents == TotalMaleResidents && m.year == p.year && m.count == p.count;
    assert forall p :: p in female <==> exists f :: f in df && f.residents == TotalFemaleResidents && f.year == p.year && f.count == p.count;
    Join(male, female)
  }

  /** The comparison's years are exactly the years both series have. */
  lemma ComparisonYears(df: seq<Record>)
    ensures JoinedYears(Comparison(df)) ==
      Years(Select(df, TotalMaleResidents)) * Years(Select(df, TotalFemaleResidents))
  {
    JoinYears(Select(df, TotalMaleResidents), Select(df, TotalFemaleResidents));
  }

  /** The comparison repeats a row once per pair of matching rows: `(Y, a, b)`
      occurs as many times as the table's male rows `(Y, a)` times its female
      rows `(Y, b)`, so one row per year and label gives one row per year. */
  lemma ComparisonCount(df: seq<Record>, j: Joined)
    ensures multiset(Comparison(df))[j] ==
      multiset(df)[Record(j.year, TotalMaleResidents, j.left)] *
      multiset(df)[Record(j.year, TotalFemaleResidents, j.right)]
  {
    JoinCount(Select(df, TotalMaleResidents), Select(df, TotalFemaleResidents), j);
    SelectCount(df, TotalMaleResidents, YearCount(j.year, j.left));
    SelectCount(df, TotalFemaleResidents, YearCount(j.year, j.right));
  }

  /** One row of `calculate_ratio`: Year, Count_Female, Count_Male, Ratio. */
  datatype RatioRow = RatioRow(year: int, countFemale: nat, countMale: nat, ratio: Value)

  /** `merged["Ratio"] = merged["Count_Female"] / merged["Count_Male"]` on a
      join whose left side is the female series. */
  function WithRatio(merged: seq<Joined>): (r: seq<RatioRow>)
    ensures |r| == |merged|
    ensures forall i :: 0 <= i < |r| ==>
      Joined(r[i].year, r[i].countFemale, r[i].countMale) == merged[i] &&
      r[i].ratio == Ratio(r[i].countFemale, r[i].countMale)
  {
    seq(|merged|, i requires 0 <= i < |merged| =>
      RatioRow(merged[i].year, merged[i].left, merged[i].right, Ratio(merged[i].left, merged[i].right)))
  }

  /** A ratio row is in the table exactly when its three columns form a
      row of the join and its ratio is computed from those counts. */
  lemma WithRatioRows(merged: seq<Joined>)
    ensures forall row :: row in WithRatio(merged) <==>
      Joined(row.year, row.countFemale, row.countMale) in merged &&
      row.ratio == Ratio(row.countFemale, row.countMale)
  {
    var r := WithRatio(merged);
    forall row | row in r
      ensures Joined(row.year, row.countFemale, row.countMale) in merged
    {
      var i :| 0 <= i < |r| && r[i] == row;
      assert merged[i] == Joined(row.year, row.countFemale, row.countMale);
    }
    forall row: RatioRow | Joined(row.year, row.countFemale, row.countMale) in merged &&
        row.ratio == Ratio(row.countFemale, row.countMale)
      ensures row in r
    {
      var i :| 0 <= i < |merged| && merged[i] == Joined(row.year, row.countFemale, row.countMale);
      assert r[i] == row;
    }
  }

  /** Adding the ratio column keeps one output row per merged row: a ratio
      row occurs as often as its merged row when its ratio is the computed
      one, and never otherwise. */
  lemma {:induction false} WithRatioCount(merged: seq<Joined>, row: RatioRow)
    ensures multiset(WithRatio(merged))[row] ==
      if row.ratio == Ratio(row.countFemale, row.countMale)
      then multiset(merged)[Joined(row.year, row.countFemale, row.countMale)] else 0
  {
    if merged != [] {
      var m := merged[0];
      assert WithRatio(merged) ==
        [RatioRow(m.year, m.left, m.right, Ratio(m.left, m.right))] + WithRatio(merged[1..]);
      WithRatioCount(merged[1..], row);
      HeadCount(merged, Joined(row.year, row.countFemale, row.countMale));
    }
  }

  /** `calculate_ratio(male_cat, female_cat)`: both categories restricted to
      the selected years, the female series joined with the male series on
      Year, and the ratio column added. */
  function CalculateRatio(df: seq<Record>, maleCat: string, femaleCat: string): (r: seq<RatioRow>)
    ensures forall row :: row in r <==>
      row.year in YearsSelected &&
      (exists f :: f in df && f.residents == femaleCat && f.year == row.year && f.count == row.countFemale) &&
      (exists m :: m in df && m.residents == maleCat && m.year == row.year && m.count == row.countMale) &&
      row.ratio == Ratio(row.countFemale, row.countMale)
    ensures (forall rec :: rec in df ==> rec.residents != maleCat) ==> r == []
    ensures (forall rec :: rec in df ==> rec.residents != femaleCat) ==> r == []
  {
    var m := RestrictYears(Select(df, maleCat), YearsSelected);
    var f := RestrictYears(Select(df, femaleCat), YearsSelected);
    var merged := Join(f, m);
    var r := WithRatio(merged);
    WithRatioRows(merged);
    assert (m == [] || f == []) ==> merged == [] by {
      if m == [] || f == [] { JoinDisjoint(f, m); }
    }
    r
  }

  /** `calculate_ratio` repeats a row once per pair of matching rows: a row
      of a selected year with the computed ratio occurs as many times as the
      female rows with its year and female count times the male rows with its
      year and male count; any other row never occurs. */
  lemma CalculateRatioCount(df: seq<Record>, maleCat: string, femaleCat: string, row: RatioRow)
    ensures multiset(CalculateRatio(df, maleCat, femaleCat))[row] ==
      if row.year in YearsSelected && row.ratio == Ratio(row.countFemale, row.countMale)
      then multiset(df)[Record(row.year, femaleCat, row.countFemale)] *
           multiset(df)[Record(row.year, maleCat, row.countMale)]
      else 0
  {
    var m := RestrictYears(Select(df, maleCat), YearsSelected);
    var f := RestrictYears(Select(df, femaleCat), YearsSelected);
    var j := Joined(row.year, row.countFemale, row.countMale);
    WithRatioCount(Join(f, m), row);
    JoinCount(f, m, j);
    RestrictCount(Select(df, femaleCat), YearsSelected, YearCount(row.year, row.countFemale));
    RestrictCount(Select(df, maleCat), YearsSelected, YearCount(row.year, row.countMale));
    SelectCount(df, femaleCat, YearCount(row.year, row.countFemale));
    SelectCount(df, maleCat, YearCount(row.year, row.countMale));
  }

  /** One row of the growth table: Year, Count, Previous_Count and
      Growth_Rate (%). */
  datatype GrowthRow = GrowthRow(year: int, count: nat, previous: nat, rate: Value)

  /** `growth["Growth_Rate (%)"] = ...` on a join whose right side is the
      shifted series. */
  function WithGrowthRate(merged: seq<Joined>): (r: seq<GrowthRow>)
    ensures |r| == |merged|
    ensures forall i :: 0 <= i < |r| ==>
      Joined(r[i].year, r[i].count, r[i].previous) == merged[i] &&
      r[i].rate == GrowthRate(r[i].count, r[i].previous)
  {
    seq(|merged|, i requires 0 <= i < |merged| =>
      GrowthRow(merged[i].year, merged[i].left, merged[i].right, GrowthRate(merged[i].left, merged[i].right)))
  }

  /** A growth row is in the table exactly when its year, count and
      previous count form a row of the join and its rate is computed from
      those counts. */
  lemma WithGrowthRateRows(merged: seq<Joined>)
    ensures forall g :: g in WithGrowthRate(merged) <==>
      Joined(g.year, g.count, g.previous) in merged && g.rate == GrowthRate(g.count, g.previous)
  {
    var r := WithGrowthRate(merged);
    forall g | g in r
      ensures Joined(g.year, g.count, g.previous) in merged
    {
      var i :| 0 <= i < |r| && r[i] == g;
      assert merged[i] == Joined(g.year, g.count, g.previous);
    }
    forall g: GrowthRow | Joined(g.year, g.count, g.previous) in merged &&
        g.rate == GrowthRate(g.count, g.previous)
      ensures g in r
    {
      var i :| 0 <= i < |merged| && merged[i] == Joined(g.year, g.count, g.previous);
      assert r[i] == g;
    }
  }

  /** Adding the growth column keeps one output row per merged row. */
  lemma {:induction false} WithGrowthRateCount(merged: seq<Joined>, g: GrowthRow)
    ensures multiset(WithGrowthRate(merged))[g] ==
      if g.rate == GrowthRate(g.count, g.previous)
      then multiset(merged)[Joined(g.year, g.count, g.previous)] else 0
  {
    if merged != [] {
      var m := merged[0];
      assert WithGrowthRate(merged) ==
        [GrowthRow(m.year, m.left, m.right, GrowthRate(m.left, m.right))] + WithGrowthRate(merged[1..]);
      WithGrowthRateCount(merged[1..], g);
      HeadCount(merged, Joined(g.year, g.count, g.previous));
    }
  }

  /** The growth table of a Year/Count series `t1`: `t1` joined on Year with
      its copy shifted one year later. A row at year Y pairs the series'
      count at Y with its count at Y - 1. */
  function Growth(t1: seq<YearCount>): (r: seq<GrowthRow>)
    ensures forall g {:trigger g in r} :: g in r <==>
      YearCount(g.year, g.count) in t1 && YearCount(g.year - 1, g.previous) in t1 &&
      g.rate == GrowthRate(g.count, g.previous)
  {
    var merged := Join(t1, Shifted(t1));
    WithGrowthRateRows(merged);
    forall g: GrowthRow
      ensures Joined(g.year, g.count, g.previous) in merged <==>
        YearCount(g.year, g.count) in t1 && YearCount(g.year - 1, g.previous) in t1
    {
      ShiftedHas(t1, YearCount(g.year, g.previous));
    }
    WithGrowthRate(merged)
  }

  /** The growth table repeats a row once per pair of series rows: a row at
      Y with the computed rate occurs as many times as the series' rows
      `(Y, count)` times its rows `(Y - 1, previous)`. */
  lemma GrowthCount(t1: seq<YearCount>, g: GrowthRow)
    ensures multiset(Growth(t1))[g] ==
      if g.rate == GrowthRate(g.count, g.previous)
      then multiset(t1)[YearCount(g.year, g.count)] * multiset(t1)[YearCount(g.year - 1, g.previous)]
      else 0
  {
    var merged := Join(t1, Shifted(t1));
    GrowthIsJoinWithRate(t1);
    WithGrowthRateCount(merged, g);
    ShiftJoinCount(t1, Joined(g.year, g.count, g.previous));
  }

  /** The growth table is the shift-and-merge with the rate column added. */
  lemma GrowthIsJoinWithRate(t1: seq<YearCount>)
    ensures Growth(t1) == WithGrowthRate(Join(t1, Shifted(t1)))
  {
  }

  /** The merge of a series with its shifted copy pairs every row at Y with
      every row at Y - 1. */
  lemma ShiftJoinCount(t1: seq<YearCount>, j: Joined)
    ensures multiset(Join(t1, Shifted(t1)))[j] ==
      multiset(t1)[YearCount(j.year, j.left)] * multiset(t1)[YearCount(j.year - 1, j.right)]
  {
    JoinCount(t1, Shifted(t1), j);
    ShiftedCount(t1, YearCount(j.year, j.right));
  }

  /** The earliest year of the series never appears in the growth table:
      every growth row is at least one year later. */
  lemma EarliestYearDropped(t1: seq<YearCount>, earliest: int)
    requires forall x :: x in t1 ==> earliest <= x.year
    ensures forall g :: g in Growth(t1) ==> g.year > earliest
  {
  }

  /** A series covering a single year has an empty growth table. */
  lemma SingleYearNoGrowth(t1: seq<YearCount>, y: int)
    requires forall x :: x in t1 ==> x.year == y
    ensures Growth(t1) == []
  {
    ShiftedRows(t1);
    assert Years(t1) !! Years(Shifted(t1)) by {
      assert forall i :: 0 <= i < |t1| ==> t1[i] in t1;
      assert forall p :: p in Shifted(t1) ==> p.year == y + 1;
    }
    JoinDisjoint(t1, Shifted(t1));
  }

  /** When the series repeats no year, the growth table has one row for each
      year Y whose predecessor Y - 1 is also present. */
  lemma GrowthOneRowPerYear(t1: seq<YearCount>)
    requires UniqueYears(t1)
    ensures |Growth(t1)| == |set x | x in t1 && x.year - 1 in Years(t1) :: x.year|
  {
    var t2 := Shifted(t1);
    ShiftedRows(t1);
    assert UniqueYears(t2) by {
      forall i, j | 0 <= i < j < |t2|
        ensures t2[i].year != t2[j].year
      {
        assert t1[i].year != t1[j].year;
      }
    }
    JoinOneRowPerYear(t1, t2);
    GrowthIsJoinWithRate(t1);
    assert |WithGrowthRate(Join(t1, t2))| == |Join(t1, t2)|;
    SharedShiftedYears(t1);
  }

  /** The years a series shares with its shifted copy are the years whose
      predecessor is also in the series. */
  lemma SharedShiftedYears(t1: seq<YearCount>)
    ensures Years(t1) * Years(Shifted(t1)) == set x | x in t1 && x.year - 1 in Years(t1) :: x.year
  {
    var t2 := Shifted(t1);
    var withPredecessor := set x | x in t1 && x.year - 1 in Years(t1) :: x.year;
    forall y | y in Years(t1) * Years(t2)
      ensures y in withPredecessor
    {
      var p :| p in t2 && p.year == y;
      ShiftedHas(t1, p);
      var x :| x in t1 && x.year == y;
      assert YearCount(p.year - 1, p.count) in t1;
    }
    forall y | y in withPredecessor
      ensures y in Years(t1) * Years(t2)
    {
      var x :| x in t1 && x.year == y && x.year - 1 in Years(t1);
      var w :| w in t1 && w.year == y - 1;
      ShiftedHas(t1, YearCount(y, w.count));
    }
  }

  /** The total series is copied, and the copy's years are moved one year
      later in place: the shifted copy is a fresh frame, so `t1` is untouched (the method modifies
      nothing it was given). The Count column of `t2` is the Previous_Count
      of the join. */
  method ShiftedCopy(t1: array<YearCount>) returns (t2: array<YearCount>)
    ensures fresh(t2)
    ensures t2[..] == Shifted(t1[..])
  {
    t2 := new YearCount[t1.Length](i requires 0 <= i < t1.Length reads t1 => t1[i]);
    forall i | 0 <= i < t2.Length {
      t2[i] := YearCount(t2[i].year + 1, t2[i].count);
    }
  }

  /** The growth view: select the total residents series into a fresh frame,
      make its shifted copy, join the two on Year and add the growth column. */
  method GrowthAnalysis(df: seq<Record>) returns (growth: seq<GrowthRow>)
    ensures forall g :: g in growth <==>
      (exists c :: c in df && c.residents == TotalResidents && c.year == g.year && c.count == g.count) &&
      (exists p :: p in df && p.residents == TotalResidents && p.year == g.year - 1 && p.count == g.previous) &&
      g.rate == GrowthRate(g.count, g.previous)
    ensures growth == Growth(Select(df, TotalResidents))
  {
    var total := Select(df, TotalResidents);
    var t1 := new YearCount[|total|](i requires 0 <= i < |total| => total[i]);
    assert t1[..] == total;
    var t2 := ShiftedCopy(t1);
    assert t1[..] == total;
    var merged := Join(t1[..], t2[..]);
    growth := WithGrowthRate(merged);
    assert growth == Growth(total);
    forall g: GrowthRow
      ensures g in growth <==>
        (exists c :: c in df && c.residents == TotalResidents && c.year == g.year && c.count == g.count) &&
        (exists p :: p in df && p.residents == TotalResidents && p.year == g.year - 1 && p.count == g.previous) &&
        g.rate == GrowthRate(g.count, g.previous)
    {
      SelectHas(df, TotalResidents, g.year, g.count);
      SelectHas(df, TotalResidents, g.year - 1, g.previous);
    }
  }

  /** The Growth_Rate (%) column of the growth table. */
  function Rates(growth: seq<GrowthRow>): (r: seq<Value>)
    ensures |r| == |growth|
    ensures forall i :: 0 <= i < |growth| ==> r[i] == growth[i].rate
    ensures forall v :: v in r <==> exists g :: g in growth && g.rate == v
  {
    var r := seq(|growth|, i requires 0 <= i < |growth| => growth[i].rate);
    assert forall g :: g in growth ==> g.rate in r by {
      forall g | g in growth
        ensures g.rate in r
      {
        var i :| 0 <= i < |growth| && growth[i] == g;
        assert r[i] == g.rate;
      }
    }
    assert forall i :: 0 <= i < |r| ==> growth[i] in growth;
    r
  }

  /** The three figures above the growth table: average, highest and lowest
      growth rate, undefined when the table is empty or holds a marker. The
      average is the arithmetic mean of the rate column. */
  function GrowthSummary(growth: seq<GrowthRow>): (r: Option<Summary>)
    ensures r.Some? <==> growth != [] && forall g :: g in growth ==> g.rate.Finite?
    ensures r.Some? ==> r.value.mean == Mean(Values(Rates(growth)))
    ensures r.Some? ==> r.value.lowest <= r.value.mean <= r.value.highest
    ensures r.Some? ==> forall g :: g in growth ==>
      r.value.lowest <= g.rate.value <= r.value.highest
    ensures r.Some? ==> exists g :: g in growth && g.rate == Finite(r.value.highest)
    ensures r.Some? ==> exists g :: g in growth && g.rate == Finite(r.value.lowest)
  {
    var rates := Rates(growth);
    forall v | v in rates
      ensures exists g :: g in growth && g.rate == v
    {
      var i :| 0 <= i < |rates| && rates[i] == v;
      assert growth[i] in growth;
    }
    forall g | g in growth
      ensures g.rate in rates
    {
      var i :| 0 <= i < |growth| && growth[i] == g;
      assert rates[i] == g.rate;
    }
    Summarize(rates)
  }
}
