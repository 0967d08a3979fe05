/**
 * The top-level pipeline: validate, look up the weather and its vehicles, write the user's
 * speed limits into the orbit objects, score every (vehicle, sequence) pair, pick the first
 * minimum and render it.
 */
module Finder {
  import opened Wrappers
  import JavaStrings
  import Enums
  import opened Model
  import Initializer
  import Helper
  import Validator
  import ValidationUtils

  const ValidationFailedHeader := "\nValidation failed : \n"
  // Two joined literals, so that the verifier can read the first character (see Validator).
  const SystemError := "System Error: Unable to find " + "shortest possible time"

  /** Every orbit of every sequence has an entry in the map (Map.get would return null otherwise). */
  predicate CoversOrbits(m: SpeedLimitMap, orbits: seq<seq<Orbit>>) {
    forall s, o :: s in orbits && o in s ==> o.name in Keys(m)
  }

  /** No sequence is empty (the minimum over an empty sequence's limits does not exist). */
  predicate NonEmptySequences(orbits: seq<seq<Orbit>>) {
    forall s :: s in orbits ==> |s| > 0
  }

  /** Every orbit's current limit is the one the map gives its name. */
  predicate LimitsApplied(m: SpeedLimitMap, orbits: seq<seq<Orbit>>)
    requires CoversOrbits(m, orbits)
    reads Footprint(orbits)
  {
    forall s, o :: s in orbits && o in s ==> o.speedLimit == Lookup(m, o.name)
  }

  /**
   * In a Java map a name has one entry, so once the limits are written every orbit holds the
   * speed the user entered for its name.
   */
  lemma LimitsMatchEntries(m: SpeedLimitMap, orbits: seq<seq<Orbit>>)
    requires DistinctKeys(m) && CoversOrbits(m, orbits) && LimitsApplied(m, orbits)
    ensures forall s, o, e :: s in orbits && o in s && e in m && e.orbitName == o.name ==> o.speedLimit == e.speed
  {
    forall s, o, e | s in orbits && o in s && e in m && e.orbitName == o.name
      ensures o.speedLimit == e.speed
    {
      LookupFindsEntry(m, e);
    }
  }

  predicate PositiveLimits(orbits: seq<seq<Orbit>>)
    reads Footprint(orbits)
  {
    forall s, o :: s in orbits && o in s ==> o.speedLimit >= 1
  }

  /** The inner forEach: writes the map's value into every orbit of one sequence. */
  method ApplyToSequence(orbitSequence: seq<Orbit>, m: SpeedLimitMap)
    requires forall o :: o in orbitSequence ==> o.name in Keys(m)
    modifies set o | o in orbitSequence
    ensures forall o :: o in orbitSequence ==> o.speedLimit == Lookup(m, o.name)
  {
    var j := 0;
    while j < |orbitSequence|
      invariant 0 <= j <= |orbitSequence|
      invariant forall l :: 0 <= l < j ==> orbitSequence[l].speedLimit == Lookup(m, orbitSequence[l].name)
    {
      var orbit := orbitSequence[j];
      orbit.speedLimit := Lookup(m, orbit.name);
      j := j + 1;
    }
  }

  /**
   * The nested forEach that writes the map's value into each orbit's velocity. An orbit that
   * occurs in several sequences is written several times with the same value.
   */
  method ApplySpeedLimits(orbits: seq<seq<Orbit>>, m: SpeedLimitMap)
    requires CoversOrbits(m, orbits)
    modifies Footprint(orbits)
    ensures LimitsApplied(m, orbits)
  {
    var i := 0;
    while i < |orbits|
      invariant 0 <= i <= |orbits|
      invariant forall k, o :: 0 <= k < i && o in orbits[k] ==> o.name in Keys(m) && o.speedLimit == Lookup(m, o.name)
    {
      assert orbits[i] in orbits;
      ApplyToSequence(orbits[i], m);
      i := i + 1;
    }
    forall s, o | s in orbits && o in s
      ensures o.speedLimit == Lookup(m, o.name)
    {
      var k :| 0 <= k < |orbits| && orbits[k] == s;
    }
  }

  /** With valid limits and the catalogue's vehicles, every pair can be scored. */
  lemma PlanScorable(weather: Weather, vehicles: seq<Vehicle>, orbits: seq<seq<Orbit>>)
    requires forall v :: v in vehicles ==> v in Initializer.AllVehicles()
    requires NonEmptySequences(orbits) && PositiveLimits(orbits)
    ensures Helper.AllScorable(vehicles, orbits)
  {
    Initializer.VehicleCatalogueFacts();
    forall i, k | 0 <= i < |vehicles| && 0 <= k < |orbits|
      ensures Helper.Scorable(vehicles[i], orbits[k])
    {
      assert vehicles[i] in vehicles && orbits[k] in orbits;
      SnapshotValues(orbits[k]);
      Helper.ApplicableMaxSpeedPositive(Snapshot(orbits[k]), vehicles[i]);
    }
  }

  /** The candidates the pipeline scores: the weather's suitable vehicles times the sequences. */
  function PlanDetails(weatherType: string, orbits: seq<seq<Orbit>>): seq<TraverseDetail>
    requires Enums.Contains(Some(weatherType)) && NonEmptySequences(orbits) && PositiveLimits(orbits)
    reads Footprint(orbits)
  {
    var weather := Helper.GetWeatherByType(weatherType).value;
    var vehicles := Helper.GetSuitableVehicles(weather.suitableVehicleNames);
    PlanScorable(weather, vehicles, orbits);
    Helper.CrossProduct(weather, vehicles, orbits)
  }

  /** The answer for a list of candidates: the first minimum rendered, or the system error when there is none. */
  function Answer(details: seq<TraverseDetail>): string {
    match Helper.FirstMinIndex(details)
    case None => SystemError
    case Some(k) => Helper.OutputMessage(details[k])
  }

  /** What a valid request answers. */
  function Plan(weatherType: string, orbits: seq<seq<Orbit>>): string
    requires Enums.Contains(Some(weatherType)) && NonEmptySequences(orbits) && PositiveLimits(orbits)
    reads Footprint(orbits)
  {
    Answer(PlanDetails(weatherType, orbits))
  }

  /**
   * The answer is the system error exactly when no candidate's time is below Integer.MAX_VALUE,
   * and otherwise the rendering of the first candidate with the least time.
   */
  lemma PlanPicksFirstMinimum(weatherType: string, orbits: seq<seq<Orbit>>)
    requires Enums.Contains(Some(weatherType)) && NonEmptySequences(orbits) && PositiveLimits(orbits)
    ensures Plan(weatherType, orbits) == SystemError <==>
            forall j :: 0 <= j < |PlanDetails(weatherType, orbits)| ==>
              PlanDetails(weatherType, orbits)[j].traverseTime >= JavaStrings.MaxInt
    ensures Plan(weatherType, orbits) != SystemError ==>
            exists k :: Helper.IsFirstMinimum(PlanDetails(weatherType, orbits), k) &&
                        Plan(weatherType, orbits) == Helper.OutputMessage(PlanDetails(weatherType, orbits)[k])
  {
    var details := PlanDetails(weatherType, orbits);
    Helper.FirstMinIndexIsFirstMinimum(details);
    match Helper.FirstMinIndex(details)
    case None =>
    case Some(k) =>
      var message := Helper.OutputMessage(details[k]);
      assert message[0] == 'V';
      assert SystemError[0] == 'S';
  }

  /** With no orbit sequence there is no candidate, hence the system error. */
  lemma NoSequencesGiveSystemError(weatherType: string)
    requires Enums.Contains(Some(weatherType))
    ensures Plan(weatherType, []) == SystemError
  {
    var weather := Helper.GetWeatherByType(weatherType).value;
    var vehicles := Helper.GetSuitableVehicles(weather.suitableVehicleNames);
    PlanScorable(weather, vehicles, []);
    Helper.CandidatesLength(weather, vehicles, [], |vehicles|);
  }

  /**
   * Lines 73-83 of calculateOptimumTime: score every vehicle on every sequence, keep the first
   * quickest and render it, or report the system error when no candidate is below
   * Integer.MAX_VALUE.
   */
  method ScoreAndAnswer(weather: Weather, vehicles: seq<Vehicle>, orbits: seq<seq<Orbit>>) returns (result: string)
    requires Helper.AllScorable(vehicles, orbits)
    ensures result == Answer(Helper.CrossProduct(weather, vehicles, orbits))
  {
    var traverseDetails := Helper.GetTraverseDetails(weather, vehicles, orbits);
    label Scored:
    var optimumTraverseDetail := Helper.FindOptimumTraverseDetail(traverseDetails);
    if optimumTraverseDetail.None? {
      result := SystemError;
    } else {
      result := Helper.GenerateOutputMessage(optimumTraverseDetail.value);
    }
    assert unchanged@Scored(Footprint(orbits));
  }

  /**
   * calculateOptimumTime. Invalid input: the validation text behind a header, and no orbit is
   * touched. Valid input: every orbit carries its limit from the map, and the answer is Plan.
   */
  method CalculateOptimumTime(weatherType: Option<string>, orbits: seq<seq<Orbit>>, orbitSpeedLimitMap: Option<SpeedLimitMap>)
    returns (result: string)
    requires orbitSpeedLimitMap.Some? ==> DistinctKeys(orbitSpeedLimitMap.value)
    requires Validator.InputsValid(weatherType, orbitSpeedLimitMap) ==>
               CoversOrbits(orbitSpeedLimitMap.value, orbits) && NonEmptySequences(orbits)
    modifies Footprint(orbits)
    ensures !Validator.InputsValid(weatherType, orbitSpeedLimitMap) ==>
              result == ValidationFailedHeader + Validator.ValidationMessage(weatherType, orbitSpeedLimitMap) &&
              unchanged(Footprint(orbits))
    ensures Validator.InputsValid(weatherType, orbitSpeedLimitMap) ==>
              LimitsApplied(orbitSpeedLimitMap.value, orbits) && PositiveLimits(orbits) &&
              result == Plan(weatherType.value, orbits)
    ensures Validator.InputsValid(weatherType, orbitSpeedLimitMap) ==>
              forall s, o, e :: s in orbits && o in s && e in orbitSpeedLimitMap.value && e.orbitName == o.name ==>
                o.speedLimit == e.speed
  {
    var invalidMessage := Validator.ValidateUserInputs(weatherType, orbitSpeedLimitMap);
    Validator.ValidationMessageBlankIffEmpty(weatherType, orbitSpeedLimitMap);
    if ValidationUtils.IsNotBlank(Some(invalidMessage)) {
      return ValidationFailedHeader + invalidMessage;
    }
    var weather := Helper.GetWeatherByType(weatherType.value).value;
    var vehicles := Helper.GetSuitableVehicles(weather.suitableVehicleNames);
    var m := orbitSpeedLimitMap.value;
    ApplySpeedLimits(orbits, m);
    LimitsMatchEntries(m, orbits);
    label Applied:
    assert PositiveLimits(orbits);
    PlanScorable(weather, vehicles, orbits);
    result := ScoreAndAnswer(weather, vehicles, orbits);
    assert unchanged@Applied(Footprint(orbits));
  }
}
