/**
  The seasonal view: the month is read from the second space-separated
  token of each record's week label, each record's energy goes to the bucket
  of its month's season, and each bucket reports its mean.  A label without
  a second token, or whose second token is not an integer, makes the whole
  analysis fail.
 */
module Seasons {
  import opened Records
  import opened Text
  import Metrics

  datatype Season = Spring | Summer | Autumn | Winter

  /** Months 3-5 are spring, 6-8 summer, 9-11 autumn; every other integer is winter. */
  function SeasonOf(month: int): (s: Season)
    ensures s == Spring <==> 3 <= month <= 5
    ensures s == Summer <==> 6 <= month <= 8
    ensures s == Autumn <==> 9 <= month <= 11
    ensures s == Winter <==> month < 3 || month > 11
  {
    if 3 <= month <= 5 then Spring
    else if 6 <= month <= 8 then Summer
    else if 9 <= month <= 11 then Autumn
    else Winter
  }

  /** Each season has three of the twelve calendar months. */
  lemma {:induction false} ThreeMonthsPerSeason(s: Season)
    ensures |set m | 1 <= m <= 12 && SeasonOf(m) == s| == 3
  {
    var months := set m | 1 <= m <= 12 && SeasonOf(m) == s;
    match s
    case Spring => assert months == {3, 4, 5};
    case Summer => assert months == {6, 7, 8};
    case Autumn => assert months == {9, 10, 11};
    case Winter => assert months == {1, 2, 12};
  }

  /** The two ways reading the month can fail. */
  datatype LabelError =
    | MissingMonthToken          // week.split(' ')[1] raises IndexError
    | InvalidMonth(token: string) // int(token) raises ValueError

  /** int(week.split(' ')[1]) */
  function MonthOf(week: string): (r: Result<int, LabelError>)
    ensures r == Err(MissingMonthToken) <==> ' ' !in week
    ensures r.Err? && r.error.InvalidMonth? ==> ' ' !in r.error.token && ParseInt(r.error.token).None?
  {
    var parts := Split(week, ' ');
    SplitHasSecondPiece(week, ' ');
    SplitPiecesHaveNoSeparator(week, ' ');
    if |parts| < 2 then Err(MissingMonthToken)
    else match ParseInt(parts[1])
      case None => Err(InvalidMonth(parts[1]))
      case Some(m) => Ok(m)
  }

  /**
    For every label holding a space: the month is read from the token after
    the first space and before the next one (head, token and rest as
    Text.LabelTokens shows every such label to decompose); it is that token's
    integer value, or an InvalidMonth error carrying the token.
   */
  lemma MonthOfSecondToken(head: string, token: string, rest: string)
    requires ' ' !in head && ' ' !in token && (rest == [] || rest[0] == ' ')
    ensures MonthOf(head + [' '] + token + rest)
         == if ParseInt(token).Some? then Ok(ParseInt(token).value) else Err(InvalidMonth(token))
  {
    var week := head + [' '] + token + rest;
    assert week == head + [' '] + (token + rest);
    SplitAfterHead(head, token + rest, ' ');
    SplitFirstPiece(token, rest, ' ');
  }

  /** A label that follows the "Week <n>" convention yields n. */
  lemma MonthOfConventionalLabel(n: int)
    ensures MonthOf("Week " + IntToString(n)) == Ok(n)
  {
    var digits := IntToString(n);
    assert ' ' !in digits by {
      if n < 0 {
        assert digits == "-" + NatToString(-n);
        assert forall i :: 1 <= i < |digits| ==> digits[i] == NatToString(-n)[i - 1];
      }
    }
    SplitTwoPieces("Week", digits, ' ');
    assert "Week " + digits == "Week" + [' '] + digits;
    ParseIntToString(n);
  }

  /** A label with no space has no second token: "WeekOnly" makes the analysis fail. */
  lemma MonthOfWithoutSpace()
    ensures MonthOf("WeekOnly") == Err(MissingMonthToken)
  {
  }

  predicate InSeason(r: Record, s: Season)
  {
    var m := MonthOf(r.week);
    m.Ok? && SeasonOf(m.value) == s
  }

  /** Every record's label yields a month. */
  predicate AllLabelled(data: seq<Record>)
  {
    forall i :: 0 <= i < |data| ==> MonthOf(data[i].week).Ok?
  }

  /**
    The energies of the records of season s, in store order: at most one per
    record (SeasonEnergiesAppend and SeasonEnergiesSingle pin the contents).
   */
  function SeasonEnergies(data: seq<Record>, s: Season): (e: seq<real>)
    ensures |e| <= |data|
  {
    if data == [] then []
    else
      var last := data[|data| - 1];
      SeasonEnergies(data[..|data| - 1], s) + (if InSeason(last, s) then [last.totalEnergy] else [])
  }

  /** The bucket of a concatenation is the bucket of the first part followed by that of the second. */
  lemma {:induction false} SeasonEnergiesAppend(a: seq<Record>, b: seq<Record>, s: Season)
    ensures SeasonEnergies(a + b, s) == SeasonEnergies(a, s) + SeasonEnergies(b, s)
    decreases |b|
  {
    if b == [] {
      assert a + b == a;
    } else {
      var binit := b[..|b| - 1];
      assert (a + b)[..|a + b| - 1] == a + binit;
      SeasonEnergiesAppend(a, binit, s);
    }
  }

  /** One record's bucket is its energy in its own season and empty in the others. */
  lemma SeasonEnergiesSingle(r: Record, s: Season)
    ensures SeasonEnergies([r], s) == if InSeason(r, s) then [r.totalEnergy] else []
  {
    assert [r][..0] == [];
  }

  /** When every label yields a month, each record goes to exactly one season: the buckets' sizes add up to the store's. */
  lemma {:induction false} SeasonsPartitionRecords(data: seq<Record>)
    requires AllLabelled(data)
    ensures |SeasonEnergies(data, Spring)| + |SeasonEnergies(data, Summer)|
          + |SeasonEnergies(data, Autumn)| + |SeasonEnergies(data, Winter)| == |data|
  {
    if data != [] {
      var init := data[..|data| - 1];
      assert forall i :: 0 <= i < |init| ==> init[i] == data[i];
      SeasonsPartitionRecords(init);
      assert MonthOf(data[|data| - 1].week).Ok?;
    }
  }

  /** Taking one more record extends only its own season's bucket, by its energy. */
  lemma SeasonEnergiesStep(data: seq<Record>, k: int)
    requires 0 <= k < |data| && MonthOf(data[k].week).Ok?
    ensures forall s :: (SeasonEnergies(data[..k + 1], s) ==
      SeasonEnergies(data[..k], s) + (if s == SeasonOf(MonthOf(data[k].week).value) then [data[k].totalEnergy] else []))
  {
    assert data[..k + 1][..k] == data[..k];
    assert data[..k + 1][k] == data[k];
  }

  lemma AllLabelledStep(data: seq<Record>, k: int)
    requires 0 <= k < |data| && AllLabelled(data[..k]) && MonthOf(data[k].week).Ok?
    ensures AllLabelled(data[..k + 1])
  {
    var longer := data[..k + 1];
    forall i | 0 <= i < k + 1
      ensures MonthOf(longer[i].week).Ok?
    {
      if i < k {
        assert longer[i] == data[..k][i];
      }
    }
  }

  const AllSeasons: set<Season> := {Spring, Summer, Autumn, Winter}

  /** The loop state after k records: four buckets holding the seasons' energies of data[..k]. */
  predicate BucketsAfter(data: seq<Record>, k: int, seasonData: map<Season, seq<real>>)
    requires 0 <= k <= |data|
  {
    seasonData.Keys == AllSeasons && AllLabelled(data[..k]) &&
    forall s :: s in seasonData ==> seasonData[s] == SeasonEnergies(data[..k], s)
  }

  /** Appending record k's energy to its season's bucket gives the loop state after k + 1 records. */
  lemma BucketsStep(data: seq<Record>, k: int, seasonData: map<Season, seq<real>>, month: int)
    requires 0 <= k < |data| && MonthOf(data[k].week) == Ok(month) && BucketsAfter(data, k, seasonData)
    ensures BucketsAfter(data, k + 1, seasonData[SeasonOf(month) := seasonData[SeasonOf(month)] + [data[k].totalEnergy]])
  {
    SeasonEnergiesStep(data, k);
    AllLabelledStep(data, k);
  }

  datatype SeasonOutcome =
    | NoData                                   // the store is empty
    | Failure(error: LabelError)               // a label did not yield a month
    | Buckets(seasonData: map<Season, seq<real>>)

  /**
    The loop of the seasonal view: it starts four empty buckets and appends
    each record's energy to its season's bucket, stopping at the first label
    that does not yield a month.
   */
  method SeasonalAnalysis(data: seq<Record>) returns (r: SeasonOutcome)
    ensures r == NoData <==> data == []
    ensures r.Failure? <==> data != [] && !AllLabelled(data)
    ensures r.Failure? ==> exists i :: 0 <= i < |data| && AllLabelled(data[..i]) && MonthOf(data[i].week) == Err(r.error)
    ensures r.Buckets? ==> r.seasonData.Keys == AllSeasons
    ensures r.Buckets? ==> forall s :: s in r.seasonData ==> r.seasonData[s] == SeasonEnergies(data, s)
  {
    if data == [] {
      return NoData;
    }
    var seasonData: map<Season, seq<real>> := map[Spring := [], Summer := [], Autumn := [], Winter := []];
    assert data[..0] == [];
    for k := 0 to |data|
      invariant BucketsAfter(data, k, seasonData)
    {
      var entry := data[k];
      var month := MonthOf(entry.week);
      if month.Err? {
        assert !AllLabelled(data) by {
          assert MonthOf(data[k].week).Err?;
        }
        return Failure(month.error);
      }
      var season := SeasonOf(month.value);
      BucketsStep(data, k, seasonData, month.value);
      seasonData := seasonData[season := seasonData[season] + [entry.totalEnergy]];
    }
    assert data[..|data|] == data;
    return Buckets(seasonData);
  }

  /**
    The report of the seasonal view, in the order Spring, Summer, Autumn,
    Winter: each season's mean energy, or None ("No data") for an empty bucket.
   */
  function SeasonalReport(seasonData: map<Season, seq<real>>): (report: seq<(Season, Option<real>)>)
    requires seasonData.Keys == AllSeasons
    ensures |report| == 4
    ensures report[0].0 == Spring && report[1].0 == Summer && report[2].0 == Autumn && report[3].0 == Winter
    ensures forall i :: 0 <= i < 4 ==> (report[i].1.None? <==> seasonData[report[i].0] == [])
    ensures forall i :: 0 <= i < 4 && report[i].1.Some? ==>
      Metrics.Sum(Metrics.Copies(report[i].1.value, |seasonData[report[i].0]|)) == Metrics.Sum(seasonData[report[i].0])
    ensures forall i :: 0 <= i < 4 && report[i].1.Some? ==>
      Metrics.Min(seasonData[report[i].0]) <= report[i].1.value <= Metrics.Max(seasonData[report[i].0])
  {
    var seasons := [Spring, Summer, Autumn, Winter];
    seq(4, i requires 0 <= i < 4 => (seasons[i], Metrics.Mean(seasonData[seasons[i]])))
  }

  /** "Week 4" is read as April. */
  lemma ExampleLabel()
    ensures MonthOf("Week 4") == Ok(4)
  {
    MonthOfConventionalLabel(4);
    assert IntToString(4) == "4";
    assert "Week " + "4" == "Week 4";
  }

  /** int() reads "04" as 4, so "Week 04" is April too. */
  lemma ExampleLeadingZeroLabel()
    ensures MonthOf("Week 04") == Ok(4)
  {
    MonthOfSecondToken("Week", "04", "");
    ParseIntUnconventionalSpellings();
    assert "Week" + [' '] + "04" + "" == "Week 04";
  }

  /** Three records in April, July and January fill the spring, summer and winter buckets in turn. */
  lemma SeasonEnergiesExample(a: Record, b: Record, c: Record)
    requires MonthOf(a.week) == Ok(4) && MonthOf(b.week) == Ok(7) && MonthOf(c.week) == Ok(1)
    ensures SeasonEnergies([a, b, c], Spring) == [a.totalEnergy]
    ensures SeasonEnergies([a, b, c], Summer) == [b.totalEnergy]
    ensures SeasonEnergies([a, b, c], Autumn) == []
    ensures SeasonEnergies([a, b, c], Winter) == [c.totalEnergy]
  {
    assert [a, b, c][..2] == [a, b];
    assert [a, b][..1] == [a];
    assert [a][..0] == [];
    forall s: Season
      ensures SeasonEnergies([a, b, c], s)
           == SeasonEnergies([a, b], s) + (if InSeason(c, s) then [c.totalEnergy] else [])
      ensures SeasonEnergies([a, b], s)
           == SeasonEnergies([a], s) + (if InSeason(b, s) then [b.totalEnergy] else [])
      ensures SeasonEnergies([a], s) == (if InSeason(a, s) then [a.totalEnergy] else [])
    {
    }
  }
}
