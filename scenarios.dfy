/** Concrete tables worked through the derivations. */
module Scenarios {
  import opened Frame
  import opened Aggregate
  import opened Residents

  /** Two consecutive years of total residents give one growth row, for the
      later year, at 10 percent; the earlier year has no row. */
  lemma TwoYearGrowth()
    ensures Growth(Select([Record(2000, TotalResidents, 100), Record(2001, TotalResidents, 110)], TotalResidents))
      == [GrowthRow(2001, 110, 100, Finite(10.0))]
  {
    var df := [Record(2000, TotalResidents, 100), Record(2001, TotalResidents, 110)];
    var t1 := [YearCount(2000, 100), YearCount(2001, 110)];
    assert Select(df, TotalResidents) == t1 by {
      assert df[1..] == [Record(2001, TotalResidents, 110)];
      assert df[1..][1..] == [];
    }
    var t2 := Shifted(t1);
    assert t2 == [YearCount(2001, 100), YearCount(2002, 110)];
    assert t1[1..] == [YearCount(2001, 110)] && t1[1..][1..] == [];
    assert t2[1..] == [YearCount(2002, 110)] && t2[1..][1..] == [];
    MatchesNone(t1[0], t2);
    MatchesNone(t1[1], t2[1..]);
    assert Matches(t1[1], t2) == [Joined(2001, 110, 100)] + Matches(t1[1], t2[1..]);
    assert Join(t1[1..][1..], t2) == [];
    assert Join(t1[1..], t2) == Matches(t1[1], t2) + Join(t1[1..][1..], t2);
    assert Join(t1, t2) == Matches(t1[0], t2) + Join(t1[1..], t2);
  }

  /** The four-row Chinese table of the ratio scenario. */
  function ChineseTable(): seq<Record> {
    [Record(2000, "Total Male Chinese", 100), Record(2000, "Total Female Chinese", 90),
     Record(2001, "Total Male Chinese", 110), Record(2001, "Total Female Chinese", 99)]
  }

  /** Each category selects its two rows, in table order. */
  lemma ChineseSelections()
    ensures Select(ChineseTable(), "Total Male Chinese") == [YearCount(2000, 100), YearCount(2001, 110)]
    ensures Select(ChineseTable(), "Total Female Chinese") == [YearCount(2000, 90), YearCount(2001, 99)]
  {
  }

  /** Of the two Chinese years only 2000 is among the selected years. */
  lemma ChineseSelectedYears()
    ensures RestrictYears([YearCount(2000, 100), YearCount(2001, 110)], YearsSelected) == [YearCount(2000, 100)]
    ensures RestrictYears([YearCount(2000, 90), YearCount(2001, 99)], YearsSelected) == [YearCount(2000, 90)]
  {
  }

  /** The restricted female and male series join to the 2000 row. */
  lemma ChineseJoin()
    ensures Join([YearCount(2000, 90)], [YearCount(2000, 100)]) == [Joined(2000, 90, 100)]
  {
  }

  /** 90 females to 100 males is a ratio of 0.9. */
  lemma ChineseRatioColumn()
    ensures WithRatio([Joined(2000, 90, 100)]) == [RatioRow(2000, 90, 100, Finite(0.9))]
  {
  }

  /** The ratio view keeps only the selected years: with Chinese counts for
      2000 and 2001, only 2000 is reported, at 0.9. */
  lemma ChineseRatio()
    ensures CalculateRatio(ChineseTable(), "Total Male Chinese", "Total Female Chinese")
      == [RatioRow(2000, 90, 100, Finite(0.9))]
  {
    ChineseSelections();
    ChineseSelectedYears();
    ChineseJoin();
    ChineseRatioColumn();
  }
}
