/** Derived numeric cells and the mean / highest / lowest summary of a
    derived column. Arithmetic is exact (`real`): the display rounding of the
    dashboard is not part of the model. */
module Aggregate {

  /** A derived numeric cell: an exact value, or the marker for a division by
      a zero count (where the dataframe library yields inf or NaN). */
  datatype Value = Finite(value: real) | NonFinite

  datatype Option<T> = None | Some(value: T)

  /** The three figures shown above the growth table. */
  datatype Summary = Summary(mean: real, highest: real, lowest: real)

  function Sum(s: seq<real>): real {
    if s == [] then 0.0 else s[0] + Sum(s[1..])
  }

  /** The largest entry of a non-empty column. */
  function Highest(s: seq<real>): (m: real)
    requires s != []
    ensures m in s
    ensures forall x :: x in s ==> x <= m
  {
    if |s| == 1 then s[0]
    else
      var t := Highest(s[1..]);
      assert forall x :: x in s ==> x == s[0] || x in s[1..];
      if s[0] >= t then s[0] else t
  }

  /** The smallest entry of a non-empty column. */
  function Lowest(s: seq<real>): (m: real)
    requires s != []
    ensures m in s
    ensures forall x :: x in s ==> m <= x
  {
    if |s| == 1 then s[0]
    else
      var t := Lowest(s[1..]);
      assert forall x :: x in s ==> x == s[0] || x in s[1..];
      if s[0] <= t then s[0] else t
  }

  /** `mean()`: the value that, taken once per entry, adds up to the sum. */
  function Mean(s: seq<real>): (m: real)
    requires s != []
    ensures (|s| as real) * m == Sum(s)
  {
    Sum(s) / (|s| as real)
  }

  /** A column's sum lies between its length times its smallest entry and its
      length times its largest entry. */
  lemma {:induction false} SumBetween(s: seq<real>, lo: real, hi: real)
    requires forall x :: x in s ==> lo <= x <= hi
    ensures (|s| as real) * lo <= Sum(s) <= (|s| as real) * hi
  {
    if s != [] {
      assert forall x :: x in s[1..] ==> x in s;
      SumBetween(s[1..], lo, hi);
      assert s[0] in s;
    }
  }

  /** The reported lowest is at most the average, which is at most the
      reported highest. */
  lemma MeanBetween(s: seq<real>)
    requires s != []
    ensures Lowest(s) <= Mean(s) <= Highest(s)
  {
    SumBetween(s, Lowest(s), Highest(s));
    ScaledBetween(|s| as real, Lowest(s), Sum(s), Highest(s));
  }

  /** Dividing n * lo <= x <= n * hi by a positive n. */
  lemma ScaledBetween(n: real, lo: real, x: real, hi: real)
    requires n > 0.0
    requires n * lo <= x <= n * hi
    ensures lo <= x / n <= hi
  {
  }

  /** The exact values of a column none of whose cells is the marker. */
  function Values(vs: seq<Value>): (r: seq<real>)
    requires forall v :: v in vs ==> v.Finite?
    ensures |r| == |vs|
    ensures forall i :: 0 <= i < |vs| ==> vs[i] == Finite(r[i])
  {
    assert forall i :: 0 <= i < |vs| ==> vs[i] in vs;
    seq(|vs|, i requires 0 <= i < |vs| => vs[i].value)
  }

  /** `col.mean()`, `col.max()`, `col.min()` over a derived column: defined
      when the column is non-empty and holds no marker. The highest and
      lowest are cells of the column bounding every other cell; the mean is
      the sum of the cells over their number and lies between them. */
  function Summarize(vs: seq<Value>): (r: Option<Summary>)
    ensures r.Some? <==> vs != [] && forall v :: v in vs ==> v.Finite?
    ensures r.Some? ==> Finite(r.value.highest) in vs && Finite(r.value.lowest) in vs
    ensures r.Some? ==> forall v :: v in vs ==>
      r.value.lowest <= v.value <= r.value.highest
    ensures r.Some? ==> r.value.mean == Mean(Values(vs))
    ensures r.Some? ==> r.value.lowest <= r.value.mean <= r.value.highest
  {
    if vs != [] && forall v :: v in vs ==> v.Finite? then
      var s := Values(vs);
      MeanBetween(s);
      assert forall v :: v in vs ==> v.value in s by {
        forall v | v in vs
          ensures v.value in s
        {
          var i :| 0 <= i < |vs| && vs[i] == v;
          assert s[i] == v.value;
        }
      }
      assert Finite(Highest(s)) in vs by {
        var i :| 0 <= i < |s| && s[i] == Highest(s);
        assert vs[i] == Finite(Highest(s));
      }
      assert Finite(Lowest(s)) in vs by {
        var i :| 0 <= i < |s| && s[i] == Lowest(s);
        assert vs[i] == Finite(Lowest(s));
      }
      Some(Summary(Mean(s), Highest(s), Lowest(s)))
    else
      None
  }
}
