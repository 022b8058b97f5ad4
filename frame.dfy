/** Row-level relational operations on the long-format resident table:
    selecting one category, keeping a list of years, shifting every year
    by one, and the inner join of two Year/Count frames on Year. */
module Frame {

  /** One row of the input table, columns Year, Residents and Count. */
  datatype Record = Record(year: int, residents: string, count: nat)

  /** One row of a frame projected to the columns Year and Count. */
  datatype YearCount = YearCount(year: int, count: nat)

  /** One row of the inner join of two Year/Count frames on Year: `left` is
      the Count of the left frame's row and `right` that of the right frame's
      row (the join renames or suffixes the two Count columns). */
  datatype Joined = Joined(year: int, left: nat, right: nat)

  /** The years present in a Year/Count frame. */
  function Years(s: seq<YearCount>): set<int> {
    set x | x in s :: x.year
  }

  /** The years present in a joined frame. */
  function JoinedYears(s: seq<Joined>): set<int> {
    set j | j in s :: j.year
  }

  /** No year occurs twice in the frame. */
  predicate UniqueYears(s: seq<YearCount>) {
    forall i, j :: 0 <= i < j < |s| ==> s[i].year != s[j].year
  }

  /** No year occurs twice in the joined frame. */
  predicate UniqueJoinedYears(s: seq<Joined>) {
    forall i, j :: 0 <= i < j < |s| ==> s[i].year != s[j].year
  }

  /** `df[df["Residents"] == category][["Year", "Count"]]`: the Year and Count of
      every row whose category is exactly `category`, in table order. */
  function Select(df: seq<Record>, category: string): (r: seq<YearCount>)
    ensures |r| <= |df|
    ensures forall p :: p in r <==>
      exists rec :: rec in df && rec.residents == category && p == YearCount(rec.year, rec.count)
    ensures r == [] <==> forall rec :: rec in df ==> rec.residents != category
  {
    if df == [] then []
    else
      var rest := Select(df[1..], category);
      assert forall rec :: rec in df[1..] ==> rec in df;
      (if df[0].residents == category then [YearCount(df[0].year, df[0].count)] else []) + rest
  }

  /** A Year/Count pair is selected exactly when some row with that label
      carries that year and count. */
  lemma SelectHas(df: seq<Record>, category: string, y: int, c: nat)
    ensures YearCount(y, c) in Select(df, category) <==>
      exists rec :: rec in df && rec.residents == category && rec.year == y && rec.count == c
  {
  }

  /** Selection keeps table order: selecting from two stacked tables is
      stacking the two selections. */
  lemma {:induction false} SelectConcat(a: seq<Record>, b: seq<Record>, category: string)
    ensures Select(a + b, category) == Select(a, category) + Select(b, category)
  {
    if a == [] {
      assert a + b == b;
    } else {
      assert (a + b)[0] == a[0];
      assert (a + b)[1..] == a[1..] + b;
      SelectConcat(a[1..], b, category);
      var head := if a[0].residents == category then [YearCount(a[0].year, a[0].count)] else [];
      calc {
        Select(a + b, category);
        head + Select(a[1..] + b, category);
        head + (Select(a[1..], category) + Select(b, category));
        (head + Select(a[1..], category)) + Select(b, category);
      }
    }
  }

  /** A one-row table selects that row's Year and Count exactly when its category
      matches. With SelectConcat this fixes the selection row by row. */
  lemma SelectSingle(rec: Record, category: string)
    ensures Select([rec], category) ==
      if rec.residents == category then [YearCount(rec.year, rec.count)] else []
  {
  }

  /** Selection keeps duplicates: a Year/Count pair occurs in the selection
      as often as the table holds a row with that year, label and count. */
  lemma {:induction false} SelectCount(df: seq<Record>, category: string, p: YearCount)
    ensures multiset(Select(df, category))[p] == multiset(df)[Record(p.year, category, p.count)]
  {
    if df != [] {
      SelectCount(df[1..], category, p);
      assert df == [df[0]] + df[1..];
      var head := if df[0].residents == category then [YearCount(df[0].year, df[0].count)] else [];
      assert Select(df, category) == head + Select(df[1..], category);
      assert multiset(head)[p] == multiset([df[0]])[Record(p.year, category, p.count)];
    }
  }

  /** `s[s["Year"].isin(years)]`: the rows of `s` whose year is listed in
      `years`, in order. */
  function RestrictYears(s: seq<YearCount>, years: seq<int>): (r: seq<YearCount>)
    ensures |r| <= |s|
    ensures forall p :: p in r <==> p in s && p.year in years
  {
    if s == [] then []
    else
      var rest := RestrictYears(s[1..], years);
      assert forall p :: p in s <==> p == s[0] || p in s[1..];
      (if s[0].year in years then [s[0]] else []) + rest
  }

  /** Restriction keeps order: restricting two stacked frames is stacking
      the two restrictions. */
  lemma {:induction false} RestrictConcat(a: seq<YearCount>, b: seq<YearCount>, years: seq<int>)
    ensures RestrictYears(a + b, years) == RestrictYears(a, years) + RestrictYears(b, years)
  {
    if a == [] {
      assert a + b == b;
    } else {
      assert (a + b)[0] == a[0];
      assert (a + b)[1..] == a[1..] + b;
      RestrictConcat(a[1..], b, years);
      var head := if a[0].year in years then [a[0]] else [];
      calc {
        RestrictYears(a + b, years);
        head + RestrictYears(a[1..] + b, years);
        head + (RestrictYears(a[1..], years) + RestrictYears(b, years));
        (head + RestrictYears(a[1..], years)) + RestrictYears(b, years);
      }
    }
  }

  /** A one-row frame keeps its row exactly when the row's year is listed.
      With RestrictConcat this fixes the restriction row by row. */
  lemma RestrictSingle(p: YearCount, years: seq<int>)
    ensures RestrictYears([p], years) == if p.year in years then [p] else []
  {
    assert [p][1..] == [];
  }

  /** Restriction keeps duplicates: a row of a listed year occurs as often as
      in the input, a row of any other year not at all. */
  lemma {:induction false} RestrictCount(s: seq<YearCount>, years: seq<int>, p: YearCount)
    ensures multiset(RestrictYears(s, years))[p] == if p.year in years then multiset(s)[p] else 0
  {
    if s != [] {
      RestrictCount(s[1..], years, p);
      assert s == [s[0]] + s[1..];
      var head := if s[0].year in years then [s[0]] else [];
      assert RestrictYears(s, years) == head + RestrictYears(s[1..], years);
    }
  }

  /** The year column of a copy of `s` moved one year later: every row,
      moved back one year, is the original row at the same position. */
  function Shifted(s: seq<YearCount>): (r: seq<YearCount>)
    ensures |r| == |s|
    ensures forall i {:trigger r[i]} :: 0 <= i < |r| ==> YearCount(r[i].year - 1, r[i].count) == s[i]
  {
    seq(|s|, i requires 0 <= i < |s| => YearCount(s[i].year + 1, s[i].count))
  }

  /** Row i of the shifted frame is row i of the original one year later. */
  lemma ShiftedRows(s: seq<YearCount>)
    ensures |Shifted(s)| == |s|
    ensures forall i :: 0 <= i < |s| ==>
      Shifted(s)[i].year == s[i].year + 1 && Shifted(s)[i].count == s[i].count
  {
  }

  /** The shifted frame holds a row at year Y exactly when the original holds
      one with the same count at Y - 1. */
  lemma ShiftedHas(s: seq<YearCount>, p: YearCount)
    ensures p in Shifted(s) <==> YearCount(p.year - 1, p.count) in s
  {
    var t := Shifted(s);
    if YearCount(p.year - 1, p.count) in s {
      var i :| 0 <= i < |s| && s[i] == YearCount(p.year - 1, p.count);
      assert t[i] == p;
    }
  }

  /** Shifting a non-empty frame shifts its first row and then the rest. */
  lemma ShiftedCons(s: seq<YearCount>)
    requires s != []
    ensures Shifted(s) == [YearCount(s[0].year + 1, s[0].count)] + Shifted(s[1..])
  {
  }

  /** The shifted frame holds a row at year Y as often as the original holds
      the row with the same count at Y - 1. */
  lemma {:induction false} ShiftedCount(s: seq<YearCount>, p: YearCount)
    ensures multiset(Shifted(s))[p] == multiset(s)[YearCount(p.year - 1, p.count)]
  {
    if s != [] {
      ShiftedCount(s[1..], p);
      ShiftedCons(s);
      assert s == [s[0]] + s[1..];
    }
  }

  /** The joined rows contributed by the left row `x`: one per row of `r`
      with the same year, in the order of `r`. */
  function Matches(x: YearCount, r: seq<YearCount>): (out: seq<Joined>)
    ensures forall j :: j in out <==>
      j.year == x.year && j.left == x.count && YearCount(j.year, j.right) in r
  {
    if r == [] then []
    else
      var rest := Matches(x, r[1..]);
      assert forall p :: p in r <==> p == r[0] || p in r[1..];
      (if r[0].year == x.year then [Joined(x.year, x.count, r[0].count)] else []) + rest
  }

  /** `pd.merge(l, r, on="Year")` with the default inner semantics: for every
      left row, in order, one joined row per right row with the same year.
      Years on one side only produce nothing; duplicated years fan out. */
  function Join(l: seq<YearCount>, r: seq<YearCount>): (out: seq<Joined>)
    ensures forall j :: j in out <==>
      YearCount(j.year, j.left) in l && YearCount(j.year, j.right) in r
  {
    if l == [] then []
    else
      var rest := Join(l[1..], r);
      assert forall p :: p in l <==> p == l[0] || p in l[1..];
      Matches(l[0], r) + rest
  }

  /** The merge keeps the order of the left rows: joining two stacked left
      frames gives the two joins stacked. */
  lemma {:induction false} JoinConcat(a: seq<YearCount>, b: seq<YearCount>, r: seq<YearCount>)
    ensures Join(a + b, r) == Join(a, r) + Join(b, r)
  {
    if a == [] {
      assert a + b == b;
    } else {
      assert (a + b)[0] == a[0];
      assert (a + b)[1..] == a[1..] + b;
      JoinConcat(a[1..], b, r);
    }
  }

  /** A one-row left frame yields exactly that row's matches, in the order
      of the right rows. With JoinConcat this fixes the merge's row order. */
  lemma JoinSingle(x: YearCount, r: seq<YearCount>)
    ensures Join([x], r) == Matches(x, r)
  {
  }

  /** One left row's matches follow the order of the right rows: matching
      against two stacked right frames gives the two match lists stacked. */
  lemma {:induction false} MatchesConcat(x: YearCount, a: seq<YearCount>, b: seq<YearCount>)
    ensures Matches(x, a + b) == Matches(x, a) + Matches(x, b)
  {
    if a == [] {
      assert a + b == b;
    } else {
      assert (a + b)[0] == a[0];
      assert (a + b)[1..] == a[1..] + b;
      MatchesConcat(x, a[1..], b);
    }
  }

  /** One left row `x` yields the joined row `j` once per right row
      carrying j's year and right count, provided `x` carries j's year and
      left count; otherwise never. */
  lemma {:induction false} MatchesCount(x: YearCount, r: seq<YearCount>, j: Joined)
    ensures multiset(Matches(x, r))[j] ==
      if x == YearCount(j.year, j.left) then multiset(r)[YearCount(j.year, j.right)] else 0
  {
    if r != [] {
      MatchesCount(x, r[1..], j);
      assert r == [r[0]] + r[1..];
      var head := if r[0].year == x.year then [Joined(x.year, x.count, r[0].count)] else [];
      assert Matches(x, r) == head + Matches(x, r[1..]);
      assert multiset(head)[j] ==
        if x == YearCount(j.year, j.left) then multiset([r[0]])[YearCount(j.year, j.right)] else 0;
    }
  }

  /** The inner join's fan-out: a joined row `(Y, a, b)` occurs exactly as
      many times as there are pairs of a left row `(Y, a)` and a right row
      `(Y, b)`. */
  lemma {:induction false} JoinCount(l: seq<YearCount>, r: seq<YearCount>, j: Joined)
    ensures multiset(Join(l, r))[j] ==
      multiset(l)[YearCount(j.year, j.left)] * multiset(r)[YearCount(j.year, j.right)]
  {
    if l != [] {
      var a, b := YearCount(j.year, j.left), YearCount(j.year, j.right);
      var d := if l[0] == a then 1 else 0;
      var rest, n := multiset(l[1..])[a], multiset(r)[b];
      JoinCount(l[1..], r, j);
      MatchesCount(l[0], r, j);
      JoinConsCount(l, r, j);
      HeadCount(l, a);
      assert multiset(Matches(l[0], r))[j] == d * n;
      assert multiset(Join(l[1..], r))[j] == rest * n;
      assert multiset(l)[a] == d + rest;
      Distribute(d, rest, n);
    }
  }

  /** The joined rows of a non-empty left frame are its first row's matches
      followed by the rest's. */
  lemma JoinConsCount(l: seq<YearCount>, r: seq<YearCount>, j: Joined)
    requires l != []
    ensures multiset(Join(l, r))[j] == multiset(Matches(l[0], r))[j] + multiset(Join(l[1..], r))[j]
  {
    assert Join(l, r) == Matches(l[0], r) + Join(l[1..], r);
  }

  lemma Distribute(d: int, x: int, n: int)
    ensures (d + x) * n == d * n + x * n
  {
  }

  /** How often a value occurs in a non-empty sequence, split at the head. */
  lemma HeadCount<T>(s: seq<T>, x: T)
    requires s != []
    ensures multiset(s)[x] == (if s[0] == x then 1 else 0) + multiset(s[1..])[x]
  {
    assert s == [s[0]] + s[1..];
  }

  /** Two frames without a common year join to nothing; in particular an
      empty side gives an empty join. */
  lemma {:induction false} JoinDisjoint(l: seq<YearCount>, r: seq<YearCount>)
    requires Years(l) !! Years(r)
    ensures Join(l, r) == []
  {
    if l != [] {
      assert l[0].year in Years(l);
      assert forall p :: p in r ==> p.year != l[0].year;
      MatchesNone(l[0], r);
      assert Years(l[1..]) <= Years(l) by {
        assert forall p :: p in l[1..] ==> p in l;
      }
      JoinDisjoint(l[1..], r);
    }
  }

  /** The joined frame's years are exactly the years both sides share. */
  lemma JoinYears(l: seq<YearCount>, r: seq<YearCount>)
    ensures JoinedYears(Join(l, r)) == Years(l) * Years(r)
  {
    var out := Join(l, r);
    forall y | y in Years(l) * Years(r)
      ensures y in JoinedYears(out)
    {
      var a :| a in l && a.year == y;
      var b :| b in r && b.year == y;
      assert Joined(y, a.count, b.count) in out;
    }
    forall y | y in JoinedYears(out)
      ensures y in Years(l) * Years(r)
    {
      var j :| j in out && j.year == y;
      assert YearCount(y, j.left) in l && YearCount(y, j.right) in r;
    }
  }

  /** Against a right frame without repeated years a left row matches at
      most once. */
  lemma {:induction false} MatchesAtMostOne(x: YearCount, r: seq<YearCount>)
    requires UniqueYears(r)
    ensures |Matches(x, r)| <= 1
  {
    if r != [] {
      assert UniqueYears(r[1..]) by {
        forall i, j | 0 <= i < j < |r[1..]|
          ensures r[1..][i].year != r[1..][j].year
        {
          assert r[1..][i] == r[i + 1] && r[1..][j] == r[j + 1];
        }
      }
      if r[0].year == x.year {
        assert forall p :: p in r[1..] ==> p.year != x.year by {
          forall p | p in r[1..]
            ensures p.year != x.year
          {
            var k :| 0 <= k < |r[1..]| && r[1..][k] == p;
            assert r[k + 1] == p;
          }
        }
        MatchesNone(x, r[1..]);
      } else {
        MatchesAtMostOne(x, r[1..]);
      }
    }
  }

  /** A left row whose year the right frame lacks matches nothing. */
  lemma {:induction false} MatchesNone(x: YearCount, r: seq<YearCount>)
    requires forall p :: p in r ==> p.year != x.year
    ensures Matches(x, r) == []
  {
    if r != [] {
      assert forall p :: p in r[1..] ==> p in r;
      MatchesNone(x, r[1..]);
    }
  }

  /** Stacking two joined frames without repeated years whose years are
      disjoint gives a frame without repeated years. */
  lemma UniqueJoinedConcat(a: seq<Joined>, b: seq<Joined>)
    requires UniqueJoinedYears(a) && UniqueJoinedYears(b)
    requires JoinedYears(a) !! JoinedYears(b)
    ensures UniqueJoinedYears(a + b)
  {
    var c := a + b;
    forall i, j | 0 <= i < j < |c|
      ensures c[i].year != c[j].year
    {
      if j < |a| {
        assert c[i] == a[i] && c[j] == a[j];
      } else if i >= |a| {
        assert c[i] == b[i - |a|] && c[j] == b[j - |a|];
      } else {
        assert c[i] == a[i] && c[j] == b[j - |a|];
        assert c[i].year in JoinedYears(a) && c[j].year in JoinedYears(b);
      }
    }
  }

  /** In a joined frame without repeated years there is one year per row. */
  lemma {:induction false} UniqueJoinedCard(s: seq<Joined>)
    requires UniqueJoinedYears(s)
    ensures |JoinedYears(s)| == |s|
  {
    if s != [] {
      var t := s[1..];
      assert UniqueJoinedYears(t) by {
        forall i, j | 0 <= i < j < |t|
          ensures t[i].year != t[j].year
        {
          assert t[i] == s[i + 1] && t[j] == s[j + 1];
        }
      }
      UniqueJoinedCard(t);
      assert JoinedYears(s) == {s[0].year} + JoinedYears(t) by {
        assert forall j :: j in s <==> j == s[0] || j in t;
      }
      assert s[0].year !in JoinedYears(t) by {
        forall j | j in t
          ensures j.year != s[0].year
        {
          var k :| 0 <= k < |t| && t[k] == j;
          assert s[k + 1] == j;
        }
      }
    }
  }

  /** When neither side repeats a year, the join has exactly one row for each
      shared year and no year twice: "the" count of each side is well defined. */
  lemma {:induction false} JoinOneRowPerYear(l: seq<YearCount>, r: seq<YearCount>)
    requires UniqueYears(l) && UniqueYears(r)
    ensures UniqueJoinedYears(Join(l, r))
    ensures |Join(l, r)| == |Years(l) * Years(r)|
  {
    JoinUnique(l, r);
    UniqueJoinedCard(Join(l, r));
    JoinYears(l, r);
  }

  /** The induction behind JoinOneRowPerYear. */
  lemma {:induction false} JoinUnique(l: seq<YearCount>, r: seq<YearCount>)
    requires UniqueYears(l) && UniqueYears(r)
    ensures UniqueJoinedYears(Join(l, r))
  {
    if l != [] {
      var t := l[1..];
      assert UniqueYears(t) by {
        forall i, j | 0 <= i < j < |t|
          ensures t[i].year != t[j].year
        {
          assert t[i] == l[i + 1] && t[j] == l[j + 1];
        }
      }
      JoinUnique(t, r);
      var m := Matches(l[0], r);
      MatchesAtMostOne(l[0], r);
      assert JoinedYears(m) !! JoinedYears(Join(t, r)) by {
        forall j | j in Join(t, r)
          ensures j.year != l[0].year
        {
          assert YearCount(j.year, j.left) in t;
          var k :| 0 <= k < |t| && t[k] == YearCount(j.year, j.left);
          assert l[k + 1].year == j.year;
        }
      }
      UniqueJoinedConcat(m, Join(t, r));
    }
  }
}
