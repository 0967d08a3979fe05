/**
 * The reference journey: Sunny weather, Silk Drob to Hallitharam, Orbit1 limited to 5 and
 * Orbit2 to 6 megamiles per hour. The Tuktuk on Orbit2 wins at 209 minutes.
 */
module Scenario {
  import opened Wrappers
  import opened Model
  import JavaStrings
  import Enums
  import Initializer
  import Helper
  import Validator
  import Finder

  const SunnyWeather: Weather := Initializer.AllWeatherDetails()[0]
  const Bike: Vehicle := Initializer.AllVehicles()[0]
  const Tuktuk: Vehicle := Initializer.AllVehicles()[1]
  const Car: Vehicle := Initializer.AllVehicles()[2]

  /** The two catalogue orbits once the user's limits are written in. */
  const Orbit1Limited: OrbitData := OrbitData("Orbit1", "Silk Drob", "Hallitharam", 18, 20, 5)
  const Orbit2Limited: OrbitData := OrbitData("Orbit2", "Silk Drob", "Hallitharam", 20, 10, 6)

  /** The user's limits, in entry order. */
  const Limits: SpeedLimitMap := [SpeedEntry("Orbit1", 5), SpeedEntry("Orbit2", 6)]

  /** A one-orbit sequence's totals and binding limit are that orbit's own figures. */
  lemma SingleOrbitTotals(orbit: OrbitData)
    ensures Helper.TotalDistance([orbit]) == orbit.distance
    ensures Helper.TotalCraters([orbit]) == orbit.numberOfCraters
    ensures Helper.MinSpeedLimit([orbit]) == orbit.speedLimit
  {
    assert [orbit][1..] == [];
  }

  /** Orbit1 at limit 5: 216 minutes of travel and 18 craters after the 10% cut. */
  lemma Orbit1Times()
    ensures Helper.ApplicableMaxSpeed([Orbit1Limited], Tuktuk) == 5
    ensures Helper.CalculateOptimizedTraverseTime(SunnyWeather, Bike, [Orbit1Limited]) == 252
    ensures Helper.CalculateOptimizedTraverseTime(SunnyWeather, Tuktuk, [Orbit1Limited]) == 234
    ensures Helper.CalculateOptimizedTraverseTime(SunnyWeather, Car, [Orbit1Limited]) == 270
  {
    Helper.AdjustedCraterExamples();
    SingleOrbitTotals(Orbit1Limited);
    assert Helper.JavaDiv(18 * 60, 5) == 216;
    assert Helper.ActualNumberOfCraters(20, SunnyWeather.craterChangePercentage) == 18;
  }

  /** Orbit2 at limit 6: 200 minutes of travel and 9 craters after the 10% cut. */
  lemma Orbit2Times()
    ensures Helper.ApplicableMaxSpeed([Orbit2Limited], Tuktuk) == 6
    ensures Helper.CalculateOptimizedTraverseTime(SunnyWeather, Bike, [Orbit2Limited]) == 218
    ensures Helper.CalculateOptimizedTraverseTime(SunnyWeather, Tuktuk, [Orbit2Limited]) == 209
    ensures Helper.CalculateOptimizedTraverseTime(SunnyWeather, Car, [Orbit2Limited]) == 227
  {
    Helper.AdjustedCraterExamples();
    SingleOrbitTotals(Orbit2Limited);
    assert Helper.JavaDiv(20 * 60, 6) == 200;
    assert Helper.ActualNumberOfCraters(10, SunnyWeather.craterChangePercentage) == 9;
  }

  /** When every row runs between the two places, the filter keeps them all. */
  lemma {:induction false} AllRowsMatch(rows: seq<OrbitData>, source: string, destination: string)
    requires forall i :: 0 <= i < |rows| ==> Helper.RunsBetween(source, destination, rows[i].source, rows[i].destination)
    ensures Helper.MatchingRows(rows, source, destination) == rows
  {
    if |rows| != 0 {
      assert forall i :: 0 <= i < |rows[1..]| ==> rows[1..][i] == rows[i + 1];
      AllRowsMatch(rows[1..], source, destination);
    }
  }

  /** Both catalogue orbits run from Silk Drob to Hallitharam, however the names are cased. */
  lemma BothOrbitsMatch(source: string, destination: string)
    requires JavaStrings.EqualsIgnoreCase("Silk Drob", source)
    requires JavaStrings.EqualsIgnoreCase("Hallitharam", destination)
    ensures Helper.MatchingRows(Initializer.OrbitCatalogue(), source, destination) == Initializer.OrbitCatalogue()
  {
    var rows := Initializer.OrbitCatalogue();
    forall i | 0 <= i < |rows|
      ensures Helper.RunsBetween(source, destination, rows[i].source, rows[i].destination)
    {
      assert rows[i].source == "Silk Drob" && rows[i].destination == "Hallitharam";
    }
    AllRowsMatch(rows, source, destination);
  }

  /** Any casing of "Sunny" selects the Sunny catalogue entry. */
  lemma SunnyLookup(weatherType: string)
    requires JavaStrings.EqualsIgnoreCase("Sunny", weatherType)
    ensures Enums.Contains(Some(weatherType))
    ensures Helper.GetWeatherByType(weatherType) == Some(SunnyWeather)
  {
    assert Enums.WeatherCondition.Sunny.ToString() == "Sunny";
    JavaStrings.EqualsIgnoreCaseSymmetric("Sunny", weatherType);
    assert SunnyWeather in Initializer.AllWeatherDetails();
  }

  /** The six candidates, Bike, Tuktuk and Car each on Orbit1 and then on Orbit2, with their times. */
  lemma SunnyCandidates(sequences: seq<seq<Orbit>>)
    requires |sequences| == 2 && |sequences[0]| == 1 && |sequences[1]| == 1
    requires sequences[0][0].Data() == Orbit1Limited && sequences[1][0].Data() == Orbit2Limited
    requires Helper.AllScorable(Initializer.AllVehicles(), sequences)
    ensures |Helper.CrossProduct(SunnyWeather, Initializer.AllVehicles(), sequences)| == 6
    ensures Helper.IsFirstMinimum(Helper.CrossProduct(SunnyWeather, Initializer.AllVehicles(), sequences), 3)
    ensures Helper.CrossProduct(SunnyWeather, Initializer.AllVehicles(), sequences)[3] == TraverseDetail(209, sequences[1], Tuktuk)
  {
    var vehicles := Initializer.AllVehicles();
    var details := Helper.CrossProduct(SunnyWeather, vehicles, sequences);
    SnapshotValues(sequences[0]);
    SnapshotValues(sequences[1]);
    assert Snapshot(sequences[0]) == [Orbit1Limited];
    assert Snapshot(sequences[1]) == [Orbit2Limited];
    Orbit1Times();
    Orbit2Times();
    Helper.CrossProductAt(SunnyWeather, vehicles, sequences, 0, 0);
    Helper.CrossProductAt(SunnyWeather, vehicles, sequences, 0, 1);
    Helper.CrossProductAt(SunnyWeather, vehicles, sequences, 1, 0);
    Helper.CrossProductAt(SunnyWeather, vehicles, sequences, 1, 1);
    Helper.CrossProductAt(SunnyWeather, vehicles, sequences, 2, 0);
    Helper.CrossProductAt(SunnyWeather, vehicles, sequences, 2, 1);
    assert details[0].traverseTime == 252 && details[1].traverseTime == 218;
    assert details[2].traverseTime == 234 && details[3].traverseTime == 209;
    assert details[4].traverseTime == 270 && details[5].traverseTime == 227;
  }

  /** The first quickest candidate is the Tuktuk on Orbit2, rendered as such. */
  lemma SunnyAnswer(sequences: seq<seq<Orbit>>)
    requires |sequences| == 2 && |sequences[0]| == 1 && |sequences[1]| == 1
    requires sequences[0][0].Data() == Orbit1Limited && sequences[1][0].Data() == Orbit2Limited
    requires Helper.AllScorable(Initializer.AllVehicles(), sequences)
    ensures Finder.Answer(Helper.CrossProduct(SunnyWeather, Initializer.AllVehicles(), sequences)) == "Vehicle Tuktuk on Orbit2"
  {
    var details := Helper.CrossProduct(SunnyWeather, Initializer.AllVehicles(), sequences);
    SunnyCandidates(sequences);
    Helper.FirstMinIndexIsFirstMinimum(details);
    Helper.OutputMessageOneOrbit(details[3]);
    assert details[3].orbits[0].name == "Orbit2";
    assert "Vehicle " + "Tuktuk" + " on " + "Orbit2" == "Vehicle Tuktuk on Orbit2";
  }

  /** The limited orbits, once written into two singleton sequences, satisfy the pipeline's preconditions. */
  lemma LimitedSequences(sequences: seq<seq<Orbit>>)
    requires |sequences| == 2 && |sequences[0]| == 1 && |sequences[1]| == 1
    requires sequences[0][0].Data() == Orbit1Limited && sequences[1][0].Data() == Orbit2Limited
    ensures Finder.NonEmptySequences(sequences) && Finder.PositiveLimits(sequences)
  {
    forall s, o | s in sequences && o in s
      ensures o.speedLimit >= 1
    {
      assert s == sequences[0] || s == sequences[1];
      assert o == sequences[0][0] || o == sequences[1][0];
    }
  }

  /** With the limits applied to the two orbit objects, the pipeline answers the Tuktuk on Orbit2. */
  lemma SunnyPlan(weatherType: string, sequences: seq<seq<Orbit>>)
    requires JavaStrings.EqualsIgnoreCase("Sunny", weatherType)
    requires |sequences| == 2 && |sequences[0]| == 1 && |sequences[1]| == 1
    requires sequences[0][0].Data() == Orbit1Limited && sequences[1][0].Data() == Orbit2Limited
    ensures Enums.Contains(Some(weatherType))
    ensures Finder.NonEmptySequences(sequences) && Finder.PositiveLimits(sequences)
    ensures Finder.Plan(weatherType, sequences) == "Vehicle Tuktuk on Orbit2"
  {
    LimitedSequences(sequences);
    SunnyLookup(weatherType);
    Helper.SunnyAndWindyOfferAll();
    Finder.PlanScorable(SunnyWeather, Initializer.AllVehicles(), sequences);
    SunnyAnswer(sequences);
  }

  /** The fixed fields of an orbit object agree with a row (the speed limit may differ). */
  predicate OnRoute(orbit: Orbit, row: OrbitData) {
    && orbit.name == row.name && orbit.source == row.source && orbit.destination == row.destination
    && orbit.distance == row.distance && orbit.numberOfCraters == row.numberOfCraters
  }

  /** The looked-up routes: two singletons, Orbit1 then Orbit2, both named in the user's limits. */
  lemma RoutesFound(sequences: seq<seq<Orbit>>)
    requires |sequences| == |Initializer.OrbitCatalogue()|
    requires forall k :: 0 <= k < |sequences| ==>
               |sequences[k]| == 1 && sequences[k][0].Data() == Initializer.OrbitCatalogue()[k]
    ensures |sequences| == 2 && |sequences[0]| == 1 && |sequences[1]| == 1
    ensures OnRoute(sequences[0][0], Orbit1Limited) && OnRoute(sequences[1][0], Orbit2Limited)
    ensures Finder.CoversOrbits(Limits, sequences)
  {
    assert |sequences[0]| == 1 && |sequences[1]| == 1;
    assert Keys(Limits) == ["Orbit1", "Orbit2"];
    forall s, o | s in sequences && o in s
      ensures o.name in Keys(Limits)
    {
      assert s == sequences[0] || s == sequences[1];
      assert o == sequences[0][0] || o == sequences[1][0];
    }
  }

  /** The request itself passes validation: a known weather and two positive limits. */
  lemma LimitsValid()
    ensures Validator.InputsValid(Some("Sunny"), Some(Limits))
    ensures Lookup(Limits, "Orbit1") == 5 && Lookup(Limits, "Orbit2") == 6
    ensures DistinctKeys(Limits)
  {
    JavaStrings.EqualsIgnoreCaseReflexive("Sunny");
    SunnyLookup("Sunny");
    assert Keys(Limits) == ["Orbit1", "Orbit2"];
  }

  /** Once the limits are written in, the two orbit objects hold the limited rows. */
  lemma LimitsWritten(sequences: seq<seq<Orbit>>)
    requires |sequences| == 2 && |sequences[0]| == 1 && |sequences[1]| == 1
    requires OnRoute(sequences[0][0], Orbit1Limited) && OnRoute(sequences[1][0], Orbit2Limited)
    requires Finder.CoversOrbits(Limits, sequences) && Finder.LimitsApplied(Limits, sequences)
    ensures sequences[0][0].Data() == Orbit1Limited && sequences[1][0].Data() == Orbit2Limited
  {
    LimitsValid();
    assert sequences[0] in sequences && sequences[0][0] in sequences[0];
    assert sequences[1] in sequences && sequences[1][0] in sequences[1];
  }

  /**
   * The reference request end to end: look up the two routes, write in the limits 5 and 6,
   * and ask for the quickest plan in Sunny weather.
   */
  method SunnyScenario() returns (result: string)
    ensures result == "Vehicle Tuktuk on Orbit2"
  {
    var sequences := Helper.GetOrbits("Silk Drob", "Hallitharam");
    JavaStrings.EqualsIgnoreCaseReflexive("Silk Drob");
    JavaStrings.EqualsIgnoreCaseReflexive("Hallitharam");
    BothOrbitsMatch("Silk Drob", "Hallitharam");
    RoutesFound(sequences);
    LimitsValid();
    result := Finder.CalculateOptimumTime(Some("Sunny"), sequences, Some(Limits));
    LimitsWritten(sequences);
    JavaStrings.EqualsIgnoreCaseReflexive("Sunny");
    SunnyPlan("Sunny", sequences);
  }
}
