/**
 * The rule engine: for a region and a month, score every crop (1 for a
 * planting-month match, 2 for a temperature match), keep those scoring at
 * least 2, and rank them by score, highest first, with a stable sort.
 */
module Evaluator {
  import opened Wrappers
  import opened ReferenceData
  import opened DisplayText
  import opened Ranking

  /** The month is one of the crop's planting months. */
  predicate MonthOk(c: Crop, month: int) {
    month in c.months
  }

  /** The temperature is known and lies in the crop's ideal range, both ends included. */
  predicate TempOk(c: Crop, temp: Option<int>) {
    temp.Some? && c.tempMin <= temp.value <= c.tempMax
  }

  /** A crop's suitability score: the month weighs 1, the temperature 2. */
  function Score(c: Crop, temp: Option<int>, month: int): (s: int)
    ensures 0 <= s <= 3
    ensures s >= 2 <==> TempOk(c, temp)
    ensures s % 2 == 1 <==> MonthOk(c, month)
  {
    (if MonthOk(c, month) then 1 else 0) + (if TempOk(c, temp) then 2 else 0)
  }

  /** The only threshold the engine applies. */
  const Threshold := 2

  /** The record reported for crop `c`: the crop's score and tests, its flags agreeing
      with that score, its identity and display texts, and the temperature it was judged against. */
  function MakeResult(c: Crop, temp: Option<int>, month: int): (r: CropResult)
    ensures r.score == Score(c, temp, month)
    ensures r.tempMatch == TempOk(c, temp) && r.monthMatch == MonthOk(c, month)
    ensures r.tempMatch <==> r.score >= Threshold
    ensures r.monthMatch <==> r.score % 2 == 1
    ensures r.id == c.id && r.name == c.name && r.water == c.water && r.regionTemp == temp
    ensures r.idealTemp == RangeText(c.tempMin, c.tempMax) && r.soils == Join(c.soils, ", ")
  {
    CropResult(c.id, c.name, Score(c, temp, month), TempOk(c, temp), MonthOk(c, month),
               RangeText(c.tempMin, c.tempMax), temp, c.water, Join(c.soils, ", "))
  }

  /** The records of the crops that reach the threshold, in crop order. */
  function Qualifying(crops: seq<Crop>, temp: Option<int>, month: int): (q: seq<CropResult>)
    ensures |q| <= |crops|
    ensures forall k :: 0 <= k < |q| ==> q[k].tempMatch && Threshold <= q[k].score <= 3
  {
    if |crops| == 0 then []
    else
      var c := crops[|crops| - 1];
      Qualifying(crops[..|crops| - 1], temp, month)
        + (if Score(c, temp, month) >= Threshold then [MakeResult(c, temp, month)] else [])
  }

  /** What the engine returns: the region temperature and the ranked results. */
  datatype Evaluation = Evaluation(temp: Option<int>, results: seq<CropResult>)

  /** The specification of the engine. */
  function Evaluate(crops: seq<Crop>, temps: map<string, seq<int>>, region: string, month: int): Evaluation
    requires 1 <= month <= 12
    requires WellFormedTable(temps)
  {
    var temp := GetRegionTemp(temps, region, month);
    Evaluation(temp, SortByScore(Qualifying(crops, temp, month)))
  }

  /** The engine: scans the crops, collects those that reach the threshold, then sorts
      the collected records in place by score, highest first. */
  method EvaluateCrops(crops: seq<Crop>, temps: map<string, seq<int>>, region: string, month: int)
    returns (temp: Option<int>, results: seq<CropResult>)
    requires 1 <= month <= 12
    requires WellFormedTable(temps)
    ensures Evaluation(temp, results) == Evaluate(crops, temps, region, month)
  {
    temp := GetRegionTemp(temps, region, month);
    var collected: seq<CropResult> := [];
    var i := 0;
    while i < |crops|
      invariant 0 <= i <= |crops|
      invariant collected == Qualifying(crops[..i], temp, month)
    {
      var c := crops[i];
      var monthOk := month in c.months;
      var tempOk := if temp.Some? then temp.value >= c.tempMin && temp.value <= c.tempMax else false;
      var score := 0;
      if monthOk {
        score := score + 1;
      }
      if tempOk {
        score := score + 2;
      }
      assert score == Score(c, temp, month) && tempOk == TempOk(c, temp) && monthOk == MonthOk(c, month);
      if score >= Threshold {
        collected := collected + [CropResult(c.id, c.name, score, tempOk, monthOk,
                                             RangeText(c.tempMin, c.tempMax), temp, c.water, Join(c.soils, ", "))];
      }
      assert crops[..i + 1][..i] == crops[..i];
      assert collected == Qualifying(crops[..i + 1], temp, month);
      i := i + 1;
    }
    assert crops[..|crops|] == crops;
    var a := new CropResult[|collected|](k requires 0 <= k < |collected| => collected[k]);
    assert a[..] == collected;
    SortInPlace(a);
    results := a[..];
  }

  /** Qualifying works crop by crop: the records of a longer list extend those of its prefix. */
  lemma {:induction false} QualifyingAppend(a: seq<Crop>, b: seq<Crop>, temp: Option<int>, month: int)
    ensures Qualifying(a + b, temp, month) == Qualifying(a, temp, month) + Qualifying(b, temp, month)
  {
    if |b| == 0 {
      assert a + b == a;
    } else {
      assert (a + b)[..|a + b| - 1] == a + b[..|b| - 1];
      QualifyingAppend(a, b[..|b| - 1], temp, month);
    }
  }

  /** A record qualifies exactly when it is the record of a listed crop whose temperature matches. */
  lemma {:induction false} QualifyingMember(crops: seq<Crop>, temp: Option<int>, month: int, r: CropResult)
    ensures r in Qualifying(crops, temp, month)
            <==> exists c :: c in crops && TempOk(c, temp) && r == MakeResult(c, temp, month)
  {
    if |crops| > 0 {
      var init, c := crops[..|crops| - 1], crops[|crops| - 1];
      QualifyingMember(init, temp, month, r);
      assert crops == init + [c];
      if r in Qualifying(crops, temp, month) && r !in Qualifying(init, temp, month) {
        assert r == MakeResult(c, temp, month) && TempOk(c, temp);
      }
      if exists c' :: c' in crops && TempOk(c', temp) && r == MakeResult(c', temp, month) {
        var c' :| c' in crops && TempOk(c', temp) && r == MakeResult(c', temp, month);
        if c' != c {
          assert c' in init;
        }
      }
    }
  }

  /** The results are exactly the records of the crops whose temperature matches. */
  lemma RecommendedMembers(crops: seq<Crop>, temps: map<string, seq<int>>, region: string, month: int, r: CropResult)
    requires 1 <= month <= 12
    requires WellFormedTable(temps)
    ensures var e := Evaluate(crops, temps, region, month);
      r in e.results <==> exists c :: c in crops && TempOk(c, e.temp) && r == MakeResult(c, e.temp, month)
  {
    var e := Evaluate(crops, temps, region, month);
    var q := Qualifying(crops, e.temp, month);
    SortByScorePermutes(q);
    assert r in e.results <==> r in multiset(q);
    QualifyingMember(crops, e.temp, month, r);
  }

  /** A listed crop is recommended if and only if the region temperature lies in its range,
      whatever the month: a month match alone (score 1) is never enough. */
  lemma RecommendedIffTempOk(crops: seq<Crop>, temps: map<string, seq<int>>, region: string, month: int, c: Crop)
    requires 1 <= month <= 12
    requires WellFormedTable(temps)
    requires c in crops
    ensures var e := Evaluate(crops, temps, region, month);
      MakeResult(c, e.temp, month) in e.results <==> TempOk(c, e.temp)
  {
    var e := Evaluate(crops, temps, region, month);
    RecommendedMembers(crops, temps, region, month, MakeResult(c, e.temp, month));
  }

  /** Every result matched on temperature and scores 2 or 3; every one carries the looked-up temperature. */
  lemma ResultsMatchTemperature(crops: seq<Crop>, temps: map<string, seq<int>>, region: string, month: int)
    requires 1 <= month <= 12
    requires WellFormedTable(temps)
    ensures var e := Evaluate(crops, temps, region, month);
      forall r :: r in e.results ==> r.tempMatch && (r.score == 2 || r.score == 3) && r.regionTemp == e.temp
  {
    var e := Evaluate(crops, temps, region, month);
    forall r | r in e.results
      ensures r.tempMatch && (r.score == 2 || r.score == 3) && r.regionTemp == e.temp
    {
      RecommendedMembers(crops, temps, region, month, r);
    }
  }

  /** The results are ranked by score, hold exactly the qualifying records, and within
      each score keep the order of the crop list. */
  lemma ResultsRanked(crops: seq<Crop>, temps: map<string, seq<int>>, region: string, month: int)
    requires 1 <= month <= 12
    requires WellFormedTable(temps)
    ensures var e := Evaluate(crops, temps, region, month);
      var q := Qualifying(crops, e.temp, month);
      SortedByScore(e.results)
      && multiset(e.results) == multiset(q)
      && forall k :: WithScore(e.results, k) == WithScore(q, k)
  {
    var e := Evaluate(crops, temps, region, month);
    var q := Qualifying(crops, e.temp, month);
    SortByScoreSorted(q);
    SortByScorePermutes(q);
    forall k ensures WithScore(e.results, k) == WithScore(q, k) {
      SortByScoreStable(q, k);
    }
  }

  /** The ranking is the only one consistent with the sort in script.js: any ordering by
      score that keeps each score class in crop order is the result list. */
  lemma RankingUnique(crops: seq<Crop>, temps: map<string, seq<int>>, region: string, month: int, t: seq<CropResult>)
    requires 1 <= month <= 12
    requires WellFormedTable(temps)
    requires SortedByScore(t)
    requires forall k :: WithScore(t, k) == WithScore(Qualifying(crops, GetRegionTemp(temps, region, month), month), k)
    ensures t == Evaluate(crops, temps, region, month).results
  {
    ResultsRanked(crops, temps, region, month);
    SortedClassesDetermine(t, Evaluate(crops, temps, region, month).results);
  }

  /** An unknown region has no temperature, so nothing is recommended. */
  lemma UnknownRegionEmpty(crops: seq<Crop>, temps: map<string, seq<int>>, region: string, month: int)
    requires 1 <= month <= 12
    requires WellFormedTable(temps)
    requires region !in temps
    ensures Evaluate(crops, temps, region, month) == Evaluation(None, [])
  {
    var q := Qualifying(crops, None, month);
    if |q| > 0 {
      assert q[0].tempMatch;
      QualifyingMember(crops, None, month, q[0]);
    }
  }

  /** One crop on its own qualifies exactly when its temperature matches. */
  lemma QualifyingSingle(c: Crop, temp: Option<int>, month: int)
    ensures Qualifying([c], temp, month) == if TempOk(c, temp) then [MakeResult(c, temp, month)] else []
  {
    assert [c][..0] == [];
  }

  /** Four crops in a row: the kept records are those whose temperature matches, in list order. */
  lemma QualifyingFour(c1: Crop, c2: Crop, c3: Crop, c4: Crop, temp: Option<int>, month: int)
    ensures Qualifying([c1, c2, c3, c4], temp, month)
         == (if TempOk(c1, temp) then [MakeResult(c1, temp, month)] else [])
          + (if TempOk(c2, temp) then [MakeResult(c2, temp, month)] else [])
          + (if TempOk(c3, temp) then [MakeResult(c3, temp, month)] else [])
          + (if TempOk(c4, temp) then [MakeResult(c4, temp, month)] else [])
  {
    assert [c1, c2, c3, c4] == [c1] + [c2] + [c3] + [c4];
    QualifyingAppend([c1] + [c2] + [c3], [c4], temp, month);
    QualifyingAppend([c1] + [c2], [c3], temp, month);
    QualifyingAppend([c1], [c2], temp, month);
    QualifyingSingle(c1, temp, month);
    QualifyingSingle(c2, temp, month);
    QualifyingSingle(c3, temp, month);
    QualifyingSingle(c4, temp, month);
  }

  /** Two records already in score order are left as they are, ties included. */
  lemma SortTwo(w: CropResult, b: CropResult)
    requires w.score >= b.score
    ensures SortByScore([w, b]) == [w, b]
  {
    assert [w, b][..1] == [w];
    assert SortByScore([w]) == [w];
  }

  /** 17 degrees lies in the ranges of Wheat (17..24) and Barley (15..22) only; January is in both
      of their windows. */
  lemma SeventeenDegreesMatches()
    ensures TempOk(Wheat, Some(17)) && !TempOk(Rice, Some(17)) && !TempOk(Maize, Some(17)) && TempOk(Barley, Some(17))
    ensures MonthOk(Wheat, 1) && MonthOk(Barley, 1)
  {
  }

  /** Delta in January is 17 degrees: Wheat and Barley both score 3 and come in crop order;
      Rice and Maize are left out. */
  lemma DeltaJanuary()
    ensures WellFormedTable(SampleMonthlyTemps)
    ensures var e := Evaluate(Crops, SampleMonthlyTemps, "Delta", 1);
      e.temp == Some(17)
      && e.results == [MakeResult(Wheat, Some(17), 1), MakeResult(Barley, Some(17), 1)]
      && e.results[0].id == "wheat" && e.results[0].score == 3
      && e.results[1].id == "barley" && e.results[1].score == 3
  {
    SampleTablesWellFormed();
    var w, b := MakeResult(Wheat, Some(17), 1), MakeResult(Barley, Some(17), 1);
    assert GetRegionTemp(SampleMonthlyTemps, "Delta", 1) == Some(17);
    assert Qualifying(Crops, Some(17), 1) == [w, b] by {
      SeventeenDegreesMatches();
      QualifyingFour(Wheat, Rice, Maize, Barley, Some(17), 1);
    }
    assert w.id == "wheat" && w.score == 3 && b.id == "barley" && b.score == 3 by {
      SeventeenDegreesMatches();
    }
    SortTwo(w, b);
  }

  /** Delta in July is 32 degrees: Rice is in its planting window but above its range,
      scores 1 and is not recommended. */
  lemma DeltaJulyRiceExcluded()
    ensures WellFormedTable(SampleMonthlyTemps)
    ensures var e := Evaluate(Crops, SampleMonthlyTemps, "Delta", 7);
      e.temp == Some(32) && Score(Rice, e.temp, 7) == 1 && MakeResult(Rice, e.temp, 7) !in e.results
  {
    SampleTablesWellFormed();
    RecommendedIffTempOk(Crops, SampleMonthlyTemps, "Delta", 7, Rice);
  }

  /** Upper in July is 36 degrees, one above Maize's inclusive maximum of 35: Maize scores 1
      and is not recommended although July is in its window. */
  lemma UpperJulyMaizeExcluded()
    ensures WellFormedTable(SampleMonthlyTemps)
    ensures var e := Evaluate(Crops, SampleMonthlyTemps, "Upper", 7);
      e.temp == Some(36) && MonthOk(Maize, 7) && Score(Maize, e.temp, 7) == 1
      && MakeResult(Maize, e.temp, 7) !in e.results
  {
    SampleTablesWellFormed();
    RecommendedIffTempOk(Crops, SampleMonthlyTemps, "Upper", 7, Maize);
  }

  /** A region outside the table ("Sahara") yields no temperature and no results. */
  lemma SaharaUnknown(month: int)
    requires 1 <= month <= 12
    ensures WellFormedTable(SampleMonthlyTemps)
    ensures Evaluate(Crops, SampleMonthlyTemps, "Sahara", month) == Evaluation(None, [])
  {
    SampleTablesWellFormed();
    UnknownRegionEmpty(Crops, SampleMonthlyTemps, "Sahara", month);
  }
}
