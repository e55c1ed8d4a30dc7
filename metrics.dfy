/**
  The read-only views computed over the record store: daily averages keyed
  by week label, weather suggestions, aggregate statistics, the text-bar
  chart, efficiency ratings and the two filters.  Each takes the store's
  list and leaves it as it was.
 */
module Metrics {
  import opened Records

  // ---------------------------------------------------------------------
  // Daily averages (a dict comprehension keyed by week label)
  // ---------------------------------------------------------------------

  /** The set of week labels used in the store. */
  function Weeks(data: seq<Record>): set<string>
  {
    set i | 0 <= i < |data| :: data[i].week
  }

  /** Record i is the last one in the store bearing its week label. */
  predicate LastWithLabel(data: seq<Record>, i: int)
    requires 0 <= i < |data|
  {
    forall j :: i < j < |data| ==> data[j].week != data[i].week
  }

  /**
    {entry['week']: entry['total_energy'] / 7 for entry in data}: the keys are
    exactly the labels, and a label shared by several records keeps the
    value of the last of them, because each later entry overwrites the key.
   */
  function DailyAverages(data: seq<Record>): (avg: map<string, real>)
    ensures avg.Keys == Weeks(data)
    ensures forall i :: 0 <= i < |data| && LastWithLabel(data, i) ==> avg[data[i].week] == data[i].totalEnergy / 7.0
  {
    if data == [] then map[]
    else
      var last := data[|data| - 1];
      var prev := DailyAverages(data[..|data| - 1]);
      DailyAveragesStep(data, prev);
      prev[last.week := last.totalEnergy / 7.0]
  }

  /** Adding the last record's key to the averages of the others gives the averages of all. */
  lemma DailyAveragesStep(data: seq<Record>, prev: map<string, real>)
    requires data != []
    requires prev.Keys == Weeks(data[..|data| - 1])
    requires forall i :: 0 <= i < |data| - 1 && LastWithLabel(data[..|data| - 1], i) ==>
      prev[data[i].week] == data[i].totalEnergy / 7.0
    ensures prev[data[|data| - 1].week := data[|data| - 1].totalEnergy / 7.0].Keys == Weeks(data)
    ensures forall i :: 0 <= i < |data| && LastWithLabel(data, i) ==>
      prev[data[|data| - 1].week := data[|data| - 1].totalEnergy / 7.0][data[i].week] == data[i].totalEnergy / 7.0
  {
    var n := |data| - 1;
    var avg := prev[data[n].week := data[n].totalEnergy / 7.0];
    WeeksSnoc(data);
    forall i | 0 <= i < |data| && LastWithLabel(data, i)
      ensures avg[data[i].week] == data[i].totalEnergy / 7.0
    {
      if i < n {
        LastWithLabelBefore(data, i);
      }
    }
  }

  lemma WeeksSnoc(data: seq<Record>)
    requires data != []
    ensures Weeks(data) == Weeks(data[..|data| - 1]) + {data[|data| - 1].week}
  {
    var init := data[..|data| - 1];
    forall w | w in Weeks(data) ensures w in Weeks(init) + {data[|data| - 1].week} {
      var i :| 0 <= i < |data| && data[i].week == w;
      if i < |data| - 1 {
        assert init[i] == data[i];
      }
    }
    forall w | w in Weeks(init) ensures w in Weeks(data) {
      var i :| 0 <= i < |init| && init[i].week == w;
      assert data[i] == init[i];
    }
  }

  lemma LastWithLabelBefore(data: seq<Record>, i: int)
    requires 0 <= i < |data| - 1 && LastWithLabel(data, i)
    ensures LastWithLabel(data[..|data| - 1], i) && data[i].week != data[|data| - 1].week
  {
    var init := data[..|data| - 1];
    assert forall j :: i < j < |init| ==> init[j] == data[j];
  }

  /** Every record has a last record sharing its label, at or after it. */
  lemma {:induction false} LastWithSameLabelExists(data: seq<Record>, i: int) returns (j: int)
    requires 0 <= i < |data|
    ensures i <= j < |data| && data[j].week == data[i].week && LastWithLabel(data, j)
    decreases |data| - i
  {
    if LastWithLabel(data, i) {
      j := i;
    } else {
      var k :| i < k < |data| && data[k].week == data[i].week;
      j := LastWithSameLabelExists(data, k);
    }
  }

  /** Two records labelled "Week 1" with 70 and 140 kWh: one key, holding the later 140 / 7. */
  lemma DailyAveragesDuplicateLabel()
    ensures DailyAverages([Record("Week 1", 70.0, Clear), Record("Week 1", 140.0, Rainy)]) == map["Week 1" := 20.0]
  {
    var data := [Record("Week 1", 70.0, Clear), Record("Week 1", 140.0, Rainy)];
    var avg := DailyAverages(data);
    assert Weeks(data) == {"Week 1"} by {
      assert data[0].week == "Week 1" && data[1].week == "Week 1";
    }
    assert LastWithLabel(data, 1);
  }

  // ---------------------------------------------------------------------
  // Suggestions
  // ---------------------------------------------------------------------

  const MoreCapacityAdvice := "Consider using higher efficiency panels or adding more panels to compensate."
  const MaintenanceAdvice := "Optimal conditions. Ensure maintenance is up to date for maximum efficiency."
  const NoAdvice := "No specific improvements suggested."

  /**
    The suggestion for a weather text.  The fallback is given exactly for a
    text that is not the name of a condition, so it never shows for a
    validated record.
   */
  function SuggestImprovements(weather: string): (advice: string)
    ensures advice == NoAdvice <==> forall w :: Name(w) != weather
    ensures advice == MaintenanceAdvice <==> weather == Name(Clear)
    ensures advice == MoreCapacityAdvice <==> weather == Name(Rainy) || weather == Name(Cloudy)
  {
    if weather in ["Rainy", "Cloudy"] then
      assert weather == Name(Rainy) || weather == Name(Cloudy);
      MoreCapacityAdvice
    else if weather == "Clear" then
      assert weather == Name(Clear);
      MaintenanceAdvice
    else
      assert forall w :: Name(w) in ["Rainy", "Cloudy", "Clear"];
      NoAdvice
  }

  /** One line of the averages-and-suggestions display. */
  datatype AverageRow = AverageRow(week: string, dailyAverage: real, weather: Weather, advice: string)

  /**
    One row per record, in store order, showing the daily average looked up
    by the record's label: for a repeated label every row shows the value of
    the last record bearing it.  An empty store shows no rows.
   */
  function AveragesAndSuggestions(data: seq<Record>): (rows: seq<AverageRow>)
    ensures |rows| == |data|
    ensures forall i :: 0 <= i < |data| ==>
      rows[i].week == data[i].week && rows[i].weather == data[i].weather &&
      rows[i].advice == SuggestImprovements(Name(data[i].weather)) && rows[i].advice != NoAdvice
    ensures forall i, j :: 0 <= i <= j < |data| && data[j].week == data[i].week && LastWithLabel(data, j) ==>
      rows[i].dailyAverage == data[j].totalEnergy / 7.0
  {
    var avg := DailyAverages(data);
    LookupShowsLastValue(data);
    seq(|data|, i requires 0 <= i < |data| =>
      AverageRow(data[i].week, avg[data[i].week], data[i].weather, SuggestImprovements(Name(data[i].weather))))
  }

  lemma LookupShowsLastValue(data: seq<Record>)
    ensures forall i :: 0 <= i < |data| ==> data[i].week in DailyAverages(data)
    ensures forall i, j :: 0 <= i <= j < |data| && data[j].week == data[i].week && LastWithLabel(data, j) ==>
      DailyAverages(data)[data[i].week] == data[j].totalEnergy / 7.0
  {
    var avg := DailyAverages(data);
    assert forall i :: 0 <= i < |data| ==> data[i].week in Weeks(data);
    forall i, j | 0 <= i <= j < |data| && data[j].week == data[i].week && LastWithLabel(data, j)
      ensures avg[data[i].week] == data[j].totalEnergy / 7.0
    {
      assert avg[data[j].week] == data[j].totalEnergy / 7.0;
    }
  }

  // ---------------------------------------------------------------------
  // Statistics
  // ---------------------------------------------------------------------

  /** sum() of the values, added from left to right. */
  function Sum(s: seq<real>): real
  {
    if s == [] then 0.0 else Sum(s[..|s| - 1]) + s[|s| - 1]
  }

  /** Adding up a concatenation adds up each part. */
  lemma {:induction false} SumAppend(a: seq<real>, b: seq<real>)
    ensures Sum(a + b) == Sum(a) + Sum(b)
    decreases |b|
  {
    if b == [] {
      assert a + b == a;
    } else {
      var binit := b[..|b| - 1];
      assert (a + b)[..|a + b| - 1] == a + binit;
      SumAppend(a, binit);
    }
  }

  /** Non-negative values have a non-negative sum: a valid store's total is at least 0. */
  lemma {:induction false} SumNonNegative(s: seq<real>)
    requires forall i :: 0 <= i < |s| ==> 0.0 <= s[i]
    ensures 0.0 <= Sum(s)
  {
    if s != [] {
      var init := s[..|s| - 1];
      assert forall i :: 0 <= i < |init| ==> init[i] == s[i];
      SumNonNegative(init);
    }
  }

  /** max() over the values: an element that no element exceeds. */
  function Max(s: seq<real>): (m: real)
    requires s != []
    ensures m in s
    ensures forall i :: 0 <= i < |s| ==> s[i] <= m
  {
    if |s| == 1 then s[0]
    else
      var m := Max(s[..|s| - 1]);
      assert forall i :: 0 <= i < |s| - 1 ==> s[..|s| - 1][i] == s[i];
      if s[|s| - 1] > m then s[|s| - 1] else m
  }

  /** min() over the values: an element that exceeds no element. */
  function Min(s: seq<real>): (m: real)
    requires s != []
    ensures m in s
    ensures forall i :: 0 <= i < |s| ==> m <= s[i]
  {
    if |s| == 1 then s[0]
    else
      var m := Min(s[..|s| - 1]);
      assert forall i :: 0 <= i < |s| - 1 ==> s[..|s| - 1][i] == s[i];
      if s[|s| - 1] < m then s[|s| - 1] else m
  }

  lemma {:induction false} SumBounds(s: seq<real>, lo: real, hi: real)
    requires forall i :: 0 <= i < |s| ==> lo <= s[i] <= hi
    ensures |s| as real * lo <= Sum(s) <= |s| as real * hi
  {
    if s != [] {
      var init := s[..|s| - 1];
      assert forall i :: 0 <= i < |init| ==> init[i] == s[i];
      SumBounds(init, lo, hi);
      assert |s| as real * lo == |init| as real * lo + lo;
      assert |s| as real * hi == |init| as real * hi + hi;
    }
  }

  /** Values whose sum lies between count times lo and count times hi have a mean between lo and hi. */
  lemma QuotientBounds(s: seq<real>, lo: real, hi: real)
    requires s != [] && |s| as real * lo <= Sum(s) <= |s| as real * hi
    ensures lo <= Sum(s) / |s| as real <= hi
  {
    var q := Sum(s) / |s| as real;
    assert Sum(s) == |s| as real * q;
  }

  /**
   * n copies of x. Copies, SumOfCopies and CopiesOfQuotient exist only to
   * state "mean times count equals sum" (in Mean and SeasonalReport) as a
   * sum of copies, which keeps a product of two unknowns out of those
   * contracts.
   */
  function Copies(x: real, n: nat): (c: seq<real>)
    ensures |c| == n && forall i :: 0 <= i < n ==> c[i] == x
  {
    if n == 0 then [] else Copies(x, n - 1) + [x]
  }

  lemma {:induction false} SumOfCopies(x: real, n: nat)
    ensures Sum(Copies(x, n)) == n as real * x
  {
    if n > 0 {
      var c := Copies(x, n);
      SumOfCopies(x, n - 1);
      assert c[..n - 1] == Copies(x, n - 1);
      assert Sum(c) == Sum(Copies(x, n - 1)) + x;
      var m := (n - 1) as real;
      assert n as real == m + 1.0;
      assert (m + 1.0) * x == m * x + x;
    }
  }

  /** k copies of total / k add up to total. */
  lemma CopiesOfQuotient(total: real, k: nat)
    requires k > 0
    ensures Sum(Copies(total / k as real, k)) == total
  {
    var q := total / k as real;
    SumOfCopies(q, k);
    assert k as real * q == total;
  }

  /** The quotient of the sum by the count lies between the extremes. */
  lemma MeanBounds(s: seq<real>)
    requires s != []
    ensures Min(s) <= Sum(s) / |s| as real <= Max(s)
  {
    var lo, hi := Min(s), Max(s);
    assert forall i :: 0 <= i < |s| ==> lo <= s[i] <= hi;
    SumBounds(s, lo, hi);
    QuotientBounds(s, lo, hi);
  }

  /** The mean of the values, or None for no values: the value whose count copies add up to the sum. */
  function Mean(s: seq<real>): (r: Option<real>)
    ensures r.None? <==> s == []
    ensures r.Some? ==> Sum(Copies(r.value, |s|)) == Sum(s)
    ensures r.Some? ==> Min(s) <= r.value <= Max(s)
  {
    if s == [] then None
    else
      var mean := Sum(s) / |s| as real;
      MeanBounds(s);
      CopiesOfQuotient(Sum(s), |s|);
      Some(mean)
  }

  datatype Stats = Stats(total: real, maximum: real, minimum: real, average: real)

  /**
    The statistics view: the total, the largest and smallest weekly energy
    and the mean per week, or None on an empty store (no division by zero).
   */
  function Statistics(data: seq<Record>): (r: Option<Stats>)
    ensures r.None? <==> data == []
    ensures r.Some? ==> r.value.total == Sum(Energies(data))
    ensures r.Some? ==> r.value.average == r.value.total / |data| as real
    ensures r.Some? ==> exists i :: 0 <= i < |data| && data[i].totalEnergy == r.value.maximum
    ensures r.Some? ==> forall i :: 0 <= i < |data| ==> data[i].totalEnergy <= r.value.maximum
    ensures r.Some? ==> exists i :: 0 <= i < |data| && data[i].totalEnergy == r.value.minimum
    ensures r.Some? ==> forall i :: 0 <= i < |data| ==> r.value.minimum <= data[i].totalEnergy
    ensures r.Some? ==> r.value.minimum <= r.value.average <= r.value.maximum
  {
    if data == [] then None
    else
      var es := Energies(data);
      EnergyOfSomeRecord(data, Max(es));
      EnergyOfSomeRecord(data, Min(es));
      Some(Stats(Sum(es), Max(es), Min(es), Mean(es).value))
  }

  lemma EnergyOfSomeRecord(data: seq<Record>, v: real)
    requires v in Energies(data)
    ensures exists i :: 0 <= i < |data| && data[i].totalEnergy == v
  {
    var es := Energies(data);
    var i :| 0 <= i < |es| && es[i] == v;
    assert data[i].totalEnergy == v;
  }

  /** The statistics of a store of 10, 20 and 30 kWh weeks. */
  lemma StatisticsExample()
    ensures Statistics([Record("Week 1", 10.0, Clear), Record("Week 2", 20.0, Rainy), Record("Week 3", 30.0, Cloudy)])
         == Some(Stats(60.0, 30.0, 10.0, 20.0))
  {
    var data := [Record("Week 1", 10.0, Clear), Record("Week 2", 20.0, Rainy), Record("Week 3", 30.0, Cloudy)];
    var es := Energies(data);
    assert es == [10.0, 20.0, 30.0];
    assert Sum([10.0]) == 10.0 by {
      assert [10.0][..0] == [];
    }
    assert Sum([10.0, 20.0]) == 30.0 by {
      assert [10.0, 20.0][..1] == [10.0];
    }
    assert Sum(es) == 60.0 by {
      assert es[..2] == [10.0, 20.0];
    }
    var st := Statistics(data).value;
    assert st.maximum == 30.0 by {
      assert data[2].totalEnergy <= st.maximum;
    }
    assert st.minimum == 10.0 by {
      assert st.minimum <= data[0].totalEnergy;
    }
  }

  // ---------------------------------------------------------------------
  // Text-bar chart
  // ---------------------------------------------------------------------

  /** Python int() on a number: truncation toward zero. */
  function Truncate(x: real): (r: int)
    ensures 0.0 <= x ==> 0 <= r && r as real <= x < r as real + 1.0
    ensures x < 0.0 ==> r <= 0 && r as real - 1.0 < x <= r as real
  {
    if x >= 0.0 then x.Floor else -((-x).Floor)
  }

  /**
    '*' * int(e / 10): one star per whole 10 kWh; a product with a negative
    count is the empty string, as in Python.
   */
  function ChartBar(energy: real): (bar: string)
    ensures forall i :: 0 <= i < |bar| ==> bar[i] == '*'
    ensures energy >= 0.0 ==> |bar| as real * 10.0 <= energy < (|bar| + 1) as real * 10.0
    ensures energy < 10.0 ==> bar == []
  {
    var count := Truncate(energy / 10.0);
    seq(if count > 0 then count else 0, _ => '*')
  }

  // ---------------------------------------------------------------------
  // Efficiency ratings
  // ---------------------------------------------------------------------

  /**
    The efficiency view builds its list of (week, energy / 100) pairs by
    appending one pair per record, in store order.
   */
  method EfficiencyAnalysis(data: seq<Record>) returns (ratings: seq<(string, real)>)
    ensures |ratings| == |data|
    ensures forall i :: 0 <= i < |data| ==> ratings[i].0 == data[i].week && ratings[i].1 * 100.0 == data[i].totalEnergy
  {
    ratings := [];
    for k := 0 to |data|
      invariant |ratings| == k
      invariant forall i :: 0 <= i < k ==> ratings[i].0 == data[i].week && ratings[i].1 * 100.0 == data[i].totalEnergy
    {
      var rating := data[k].totalEnergy / 100.0;
      ratings := ratings + [(data[k].week, rating)];
    }
  }

  // ---------------------------------------------------------------------
  // Filters (list comprehensions)
  // ---------------------------------------------------------------------

  /** a is b with some elements left out, in the same order. */
  predicate IsSubsequence<T(==)>(a: seq<T>, b: seq<T>)
  {
    if a == [] then true
    else if b == [] then false
    else (a[|a| - 1] == b[|b| - 1] && IsSubsequence(a[..|a| - 1], b[..|b| - 1])) || IsSubsequence(a, b[..|b| - 1])
  }

  /** The positions of s whose element satisfies keep. */
  function KeptPositions<T>(s: seq<T>, keep: T -> bool): set<int>
  {
    set i | 0 <= i < |s| && keep(s[i])
  }

  lemma KeptPositionsSnoc<T>(s: seq<T>, keep: T -> bool)
    requires s != []
    ensures |KeptPositions(s, keep)|
         == |KeptPositions(s[..|s| - 1], keep)| + (if keep(s[|s| - 1]) then 1 else 0)
  {
    var n := |s| - 1;
    var before := KeptPositions(s[..n], keep);
    assert forall i :: 0 <= i < n ==> s[..n][i] == s[i];
    if keep(s[n]) {
      assert KeptPositions(s, keep) == before + {n};
    } else {
      assert KeptPositions(s, keep) == before;
    }
  }

  /**
    [x for x in s if keep(x)]: every kept element satisfies keep, and one
    element is kept per position of s that satisfies it.
   */
  function Filter<T>(s: seq<T>, keep: T -> bool): (kept: seq<T>)
    ensures forall k :: 0 <= k < |kept| ==> keep(kept[k])
    ensures |kept| == |KeptPositions(s, keep)|
  {
    if s == [] then
      assert KeptPositions(s, keep) == {};
      []
    else
      KeptPositionsSnoc(s, keep);
      Filter(s[..|s| - 1], keep) + (if keep(s[|s| - 1]) then [s[|s| - 1]] else [])
  }

  /** The kept elements are exactly the elements of s that satisfy keep. */
  lemma {:induction false} FilterMembership<T>(s: seq<T>, keep: T -> bool)
    ensures forall x :: x in Filter(s, keep) <==> x in s && keep(x)
  {
    if s != [] {
      var init := s[..|s| - 1];
      FilterMembership(init, keep);
      assert s == init + [s[|s| - 1]];
    }
  }

  lemma {:induction false} SubsequenceExtend<T>(a: seq<T>, b: seq<T>, x: T)
    requires IsSubsequence(a, b)
    ensures IsSubsequence(a, b + [x])
  {
    if a != [] {
      assert (b + [x])[..|b|] == b;
    }
  }

  /** Filtering keeps the original order: the result is a subsequence of s. */
  lemma {:induction false} FilterIsSubsequence<T>(s: seq<T>, keep: T -> bool)
    ensures IsSubsequence(Filter(s, keep), s)
  {
    if s != [] {
      var init := s[..|s| - 1];
      var x := s[|s| - 1];
      FilterIsSubsequence(init, keep);
      assert s == init + [x];
      if keep(x) {
        var f := Filter(init, keep) + [x];
        assert f[..|f| - 1] == Filter(init, keep);
      } else {
        assert Filter(s, keep) == Filter(init, keep);
        SubsequenceExtend(Filter(init, keep), init, x);
      }
    }
  }

  /** Filtering a concatenation filters each part: every satisfying element is kept, once per occurrence. */
  lemma {:induction false} FilterAppend<T>(a: seq<T>, b: seq<T>, keep: T -> bool)
    ensures Filter(a + b, keep) == Filter(a, keep) + Filter(b, keep)
    decreases |b|
  {
    if b != [] {
      var binit := b[..|b| - 1];
      assert (a + b)[..|a + b| - 1] == a + binit;
      FilterAppend(a, binit, keep);
    } else {
      assert a + b == a;
    }
  }

  /** [entry for entry in data if entry['weather'] == condition] */
  function FilterByWeather(data: seq<Record>, condition: Weather): (kept: seq<Record>)
    ensures forall r :: r in kept <==> r in data && r.weather == condition
    ensures IsSubsequence(kept, data)
    ensures |kept| == |set i | 0 <= i < |data| && data[i].weather == condition|
  {
    var keep := (r: Record) => r.weather == condition;
    FilterMembership(data, keep);
    FilterIsSubsequence(data, keep);
    assert KeptPositions(data, keep) == set i | 0 <= i < |data| && data[i].weather == condition;
    Filter(data, keep)
  }

  /** [entry for entry in data if entry['total_energy'] >= threshold] */
  function FilterByThreshold(data: seq<Record>, threshold: real): (kept: seq<Record>)
    ensures forall r :: r in kept <==> r in data && r.totalEnergy >= threshold
    ensures IsSubsequence(kept, data)
    ensures |kept| == |set i | 0 <= i < |data| && data[i].totalEnergy >= threshold|
  {
    var keep := (r: Record) => r.totalEnergy >= threshold;
    FilterMembership(data, keep);
    FilterIsSubsequence(data, keep);
    assert KeptPositions(data, keep) == set i | 0 <= i < |data| && data[i].totalEnergy >= threshold;
    Filter(data, keep)
  }

  /** Thresholding 5, 15 and 25 kWh at 15 keeps the last two, in their order. */
  lemma FilterByThresholdExample()
    ensures var a, b, c := Record("Week 1", 5.0, Clear), Record("Week 2", 15.0, Clear), Record("Week 3", 25.0, Clear);
      FilterByThreshold([a, b, c], 15.0) == [b, c]
  {
    var a, b, c := Record("Week 1", 5.0, Clear), Record("Week 2", 15.0, Clear), Record("Week 3", 25.0, Clear);
    var keep := (r: Record) => r.totalEnergy >= 15.0;
    assert [a, b, c][..2] == [a, b] && [a, b][..1] == [a] && [a][..0] == [];
    assert Filter([a], keep) == [];
    assert Filter([a, b], keep) == [b];
  }
}
