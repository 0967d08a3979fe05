/**
 * The scoring and selection steps of the trip planner: speed parsing, weather and
 * vehicle lookup, route sequences, the travel-time formula, the vehicle-major cross
 * product of candidates, the first strict minimum and the output text.
 */
module Helper {
  import opened Wrappers
  import opened Sequences
  import JavaStrings
  import Enums
  import opened Model
  import Initializer

  const MinutesPerHour: int := 60

  // ---------------------------------------------------------------------------
  // parseOrbitSpeed

  /** Integer.parseInt of the user's text, or -1 for null or anything that is not a decimal int. */
  function ParseOrbitSpeed(speedLimit: Option<string>): (r: int)
    ensures r == -1 || (speedLimit.Some? && JavaStrings.ParseInt(speedLimit.value) == Some(r))
    ensures speedLimit.Some? && JavaStrings.ParseInt(speedLimit.value).Some? ==>
              r == JavaStrings.ParseInt(speedLimit.value).value
  {
    if speedLimit.None? then -1
    else match JavaStrings.ParseInt(speedLimit.value)
      case Some(v) => v
      case None => -1
  }

  /** Text with a character that is neither a digit nor the leading sign gives -1. */
  lemma ParseOrbitSpeedRejectsMalformed(s: string, i: int)
    requires 0 <= i < |s| && !JavaStrings.IsDigit(s[i])
    requires i > 0 || (s[0] != '-' && s[0] != '+')
    ensures ParseOrbitSpeed(Some(s)) == -1
  {
    JavaStrings.ParseIntRejectsStrayCharacter(s, i);
  }

  /** Accepted text is the printed form of the value read, up to a '+' sign, leading zeros and "-0". */
  lemma ParseOrbitSpeedCanonical(s: string)
    requires JavaStrings.ParseInt(s).Some?
    ensures JavaStrings.CanonicalInt(s) == JavaStrings.IntToString(ParseOrbitSpeed(Some(s)))
  {
    JavaStrings.ParseIntCanonical(s, JavaStrings.ParseInt(s).value);
  }

  /** Well-formed text whose canonical form prints an int gives that int, whatever its sign and leading zeros. */
  lemma ParseOrbitSpeedAcceptsWellFormed(s: string, v: int)
    requires JavaStrings.WellFormedInt(s) && JavaStrings.IsInt(v)
    requires JavaStrings.CanonicalInt(s) == JavaStrings.IntToString(v)
    ensures ParseOrbitSpeed(Some(s)) == v
  {
    JavaStrings.ParseIntAcceptsWellFormed(s, v);
  }

  /** Every int, printed in decimal, is read back as itself. */
  lemma ParseOrbitSpeedRoundTrip(n: int)
    requires JavaStrings.IsInt(n)
    ensures ParseOrbitSpeed(Some(JavaStrings.IntToString(n))) == n
  {
    JavaStrings.IntToStringRoundTrip(n);
  }

  /** Signs and leading zeros are accepted. */
  lemma ParseOrbitSpeedAccepts()
    ensures ParseOrbitSpeed(Some("6")) == 6 && ParseOrbitSpeed(Some("+5")) == 5
    ensures ParseOrbitSpeed(Some("007")) == 7 && ParseOrbitSpeed(Some("-12")) == -12
    ensures ParseOrbitSpeed(Some("+05")) == 5
  {
    assert "+05"[1..] == "05" && "05"[..1] == "0";
    assert "007"[..2] == "00" && "00"[..1] == "0";
    assert "-12"[1..] == "12" && "12"[..1] == "1";
  }

  /** Null, empty, sign-only, non-digit and space-padded text gives -1. */
  lemma ParseOrbitSpeedRejects()
    ensures ParseOrbitSpeed(None) == -1 && ParseOrbitSpeed(Some("")) == -1
    ensures ParseOrbitSpeed(Some("-")) == -1 && ParseOrbitSpeed(Some("5.5")) == -1
    ensures ParseOrbitSpeed(Some(" 5")) == -1
  {
    assert !JavaStrings.AllDigits("5.5") by { assert !JavaStrings.IsDigit("5.5"[1]); }
    assert !JavaStrings.AllDigits(" 5") by { assert !JavaStrings.IsDigit(" 5"[0]); }
  }

  /** A value one past Integer.MAX_VALUE gives -1. */
  lemma ParseOrbitSpeedOverflow()
    ensures ParseOrbitSpeed(Some("2147483648")) == -1
  {
    assert "2147483648"[..9] == "214748364";
    assert "214748364"[..8] == "21474836";
    assert "21474836"[..7] == "2147483";
    assert "2147483"[..6] == "214748";
    assert "214748"[..5] == "21474";
    assert "21474"[..4] == "2147";
    assert "2147"[..3] == "214";
    assert "214"[..2] == "21";
    assert "21"[..1] == "2";
  }

  // ---------------------------------------------------------------------------
  // getWeatherByType, getSuitableVehicles, getOrbits

  /** The first weather whose condition's display name equals the text ignoring case. */
  function FindWeather(weathers: seq<Weather>, weatherType: string): (r: Option<Weather>)
    ensures r.Some? ==> r.value in weathers && JavaStrings.EqualsIgnoreCase(weatherType, r.value.condition.ToString())
    ensures r.None? <==> forall w :: w in weathers ==> !JavaStrings.EqualsIgnoreCase(weatherType, w.condition.ToString())
  {
    if |weathers| == 0 then None
    else if JavaStrings.EqualsIgnoreCase(weatherType, weathers[0].condition.ToString()) then Some(weathers[0])
    else FindWeather(weathers[1..], weatherType)
  }

  /**
   * getWeatherByType: the catalogue weather named by the text ignoring case, or null. It is
   * found exactly when WeatherCondition.contains accepts the text, and no other catalogue
   * weather matches, so a parallel findAny and a sequential search agree.
   */
  function GetWeatherByType(weatherType: string): (r: Option<Weather>)
    ensures r.Some? <==> Enums.Contains(Some(weatherType))
    ensures r.Some? ==> r.value in Initializer.AllWeatherDetails() &&
                        JavaStrings.EqualsIgnoreCase(weatherType, r.value.condition.ToString())
    ensures r.Some? ==> forall w :: (w in Initializer.AllWeatherDetails() &&
                        JavaStrings.EqualsIgnoreCase(weatherType, w.condition.ToString())) ==> w == r.value
  {
    WeatherLookupAgreesWithContains(weatherType);
    FindWeather(Initializer.AllWeatherDetails(), weatherType)
  }

  lemma WeatherLookupAgreesWithContains(weatherType: string)
    ensures FindWeather(Initializer.AllWeatherDetails(), weatherType).Some? <==> Enums.Contains(Some(weatherType))
    ensures forall w, w' :: (w in Initializer.AllWeatherDetails() && w' in Initializer.AllWeatherDetails() &&
                           JavaStrings.EqualsIgnoreCase(weatherType, w.condition.ToString()) &&
                           JavaStrings.EqualsIgnoreCase(weatherType, w'.condition.ToString())) ==> w == w'
  {
    var weathers := Initializer.AllWeatherDetails();
    Initializer.WeatherCatalogueFacts();
    forall c: Enums.WeatherCondition
      ensures JavaStrings.EqualsIgnoreCase(c.ToString(), weatherType) <==> JavaStrings.EqualsIgnoreCase(weatherType, c.ToString())
    {
      JavaStrings.EqualsIgnoreCaseSymmetric(c.ToString(), weatherType);
    }
    assert forall c: Enums.WeatherCondition :: weathers[c.Ordinal()].condition == c;
    forall w, w' | w in weathers && w' in weathers &&
                   JavaStrings.EqualsIgnoreCase(weatherType, w.condition.ToString()) &&
                   JavaStrings.EqualsIgnoreCase(weatherType, w'.condition.ToString())
      ensures w == w'
    {
      JavaStrings.EqualsIgnoreCaseSymmetric(w.condition.ToString(), weatherType);
      JavaStrings.EqualsIgnoreCaseSymmetric(w'.condition.ToString(), weatherType);
      Enums.ToStringDistinctIgnoringCase(w.condition, w'.condition, weatherType);
    }
  }

  /** The vehicles whose name is in the list, in the order of `vehicles`, not of the list. */
  function FilterByName(vehicles: seq<Vehicle>, names: seq<string>): (r: seq<Vehicle>)
    ensures IsSubsequence(r, vehicles)
    ensures forall v :: v in r <==> v in vehicles && v.name in names
  {
    if |vehicles| == 0 then []
    else if vehicles[0].name in names then
      var rest := FilterByName(vehicles[1..], names);
      assert ([vehicles[0]] + rest)[1..] == rest;
      [vehicles[0]] + rest
    else FilterByName(vehicles[1..], names)
  }

  /** A kept vehicle is kept as often as it occurs; a dropped one not at all. */
  lemma {:induction false} FilterByNameCounts(vehicles: seq<Vehicle>, names: seq<string>)
    ensures forall v :: multiset(FilterByName(vehicles, names))[v] ==
              if v.name in names then multiset(vehicles)[v] else 0
  {
    if |vehicles| != 0 {
      MultisetOfCons(vehicles);
      FilterByNameCounts(vehicles[1..], names);
      if vehicles[0].name in names {
        assert FilterByName(vehicles, names) == [vehicles[0]] + FilterByName(vehicles[1..], names);
        MultisetOfCons(FilterByName(vehicles, names));
      }
    }
  }

  /** getSuitableVehicles: the catalogue vehicles named in the list, in catalogue (priority) order. */
  function GetSuitableVehicles(vehicleNames: seq<string>): (r: seq<Vehicle>)
    ensures IsSubsequence(r, Initializer.AllVehicles())
    ensures forall v :: v in r <==> v in Initializer.AllVehicles() && v.name in vehicleNames
  {
    FilterByName(Initializer.AllVehicles(), vehicleNames)
  }

  /** The order of the name list does not matter: the result follows the catalogue. */
  lemma SuitableVehiclesFollowCatalogue()
    ensures GetSuitableVehicles(["Car", "Bike"]) == [Vehicle("Bike", 10, 2), Vehicle("Car", 20, 3)]
  {
    var all := Initializer.AllVehicles();
    assert all[1..] == [Vehicle("Tuktuk", 12, 1), Vehicle("Car", 20, 3)];
    assert all[1..][1..] == [Vehicle("Car", 20, 3)];
    assert all[1..][1..][1..] == [];
    assert "Bike" in ["Car", "Bike"] && "Tuktuk" !in ["Car", "Bike"];
  }

  /** In rain the bike is not offered. */
  lemma RainyExcludesBike()
    ensures GetSuitableVehicles(Initializer.AllWeatherDetails()[1].suitableVehicleNames)
            == [Vehicle("Tuktuk", 12, 1), Vehicle("Car", 20, 3)]
  {
    var all := Initializer.AllVehicles();
    var rainy := Initializer.AllWeatherDetails()[1].suitableVehicleNames;
    assert rainy == ["Tuktuk", "Car"];
    assert all[1..] == [Vehicle("Tuktuk", 12, 1), Vehicle("Car", 20, 3)];
    assert all[1..][1..] == [Vehicle("Car", 20, 3)];
    assert all[1..][1..][1..] == [];
    assert "Bike" !in rainy by { assert "Bike"[0] != "Tuktuk"[0] && "Bike"[0] != "Car"[0]; }
  }

  /** A name list that names the whole catalogue keeps the whole catalogue. */
  lemma CatalogueNamesKeepAll(names: seq<string>)
    requires "Bike" in names && "Tuktuk" in names && "Car" in names
    ensures GetSuitableVehicles(names) == Initializer.AllVehicles()
  {
    var all := Initializer.AllVehicles();
    assert all[1..] == [Vehicle("Tuktuk", 12, 1), Vehicle("Car", 20, 3)];
    assert all[1..][1..] == [Vehicle("Car", 20, 3)];
    assert all[1..][1..][1..] == [];
  }

  /** Sun and wind offer the whole catalogue. */
  lemma SunnyAndWindyOfferAll()
    ensures GetSuitableVehicles(Initializer.AllWeatherDetails()[0].suitableVehicleNames) == Initializer.AllVehicles()
    ensures GetSuitableVehicles(Initializer.AllWeatherDetails()[2].suitableVehicleNames) == Initializer.AllVehicles()
  {
    Initializer.WeatherCatalogueFacts();
    CatalogueNamesKeepAll(Initializer.AllWeatherDetails()[0].suitableVehicleNames);
    CatalogueNamesKeepAll(Initializer.AllWeatherDetails()[2].suitableVehicleNames);
  }

  /** The orbit starts at `source` and ends at `destination`, both compared ignoring case. */
  predicate RunsBetween(source: string, destination: string, orbitSource: string, orbitDestination: string) {
    JavaStrings.EqualsIgnoreCase(orbitSource, source) && JavaStrings.EqualsIgnoreCase(orbitDestination, destination)
  }

  /** One single-orbit sequence per orbit that runs between the two places, in catalogue order. */
  function RouteSequences(orbits: seq<Orbit>, source: string, destination: string): (r: seq<seq<Orbit>>)
    ensures |r| <= |orbits|
    ensures forall k :: 0 <= k < |r| ==>
              |r[k]| == 1 && r[k][0] in orbits && RunsBetween(source, destination, r[k][0].source, r[k][0].destination)
    ensures forall o :: o in orbits && RunsBetween(source, destination, o.source, o.destination) ==> [o] in r
  {
    if |orbits| == 0 then []
    else if RunsBetween(source, destination, orbits[0].source, orbits[0].destination) then
      [[orbits[0]]] + RouteSequences(orbits[1..], source, destination)
    else RouteSequences(orbits[1..], source, destination)
  }

  /** The catalogue rows that run between the two places, in catalogue order. */
  function MatchingRows(rows: seq<OrbitData>, source: string, destination: string): (r: seq<OrbitData>)
    ensures IsSubsequence(r, rows)
    ensures forall d :: d in r <==> d in rows && RunsBetween(source, destination, d.source, d.destination)
  {
    if |rows| == 0 then []
    else if RunsBetween(source, destination, rows[0].source, rows[0].destination) then
      var rest := MatchingRows(rows[1..], source, destination);
      assert ([rows[0]] + rest)[1..] == rest;
      [rows[0]] + rest
    else MatchingRows(rows[1..], source, destination)
  }

  /** A matching row is kept as often as it occurs; any other row not at all. */
  lemma {:induction false} MatchingRowsCounts(rows: seq<OrbitData>, source: string, destination: string)
    ensures forall d :: multiset(MatchingRows(rows, source, destination))[d] ==
              if RunsBetween(source, destination, d.source, d.destination) then multiset(rows)[d] else 0
  {
    if |rows| != 0 {
      MultisetOfCons(rows);
      MatchingRowsCounts(rows[1..], source, destination);
      if RunsBetween(source, destination, rows[0].source, rows[0].destination) {
        assert MatchingRows(rows, source, destination) == [rows[0]] + MatchingRows(rows[1..], source, destination);
        MultisetOfCons(MatchingRows(rows, source, destination));
      }
    }
  }

  /** Filtering orbit objects and filtering their current values select the same rows. */
  lemma {:induction false} RouteSequencesMatchRows(orbits: seq<Orbit>, rows: seq<OrbitData>, source: string, destination: string)
    requires |orbits| == |rows| && forall i :: 0 <= i < |rows| ==> orbits[i].Data() == rows[i]
    ensures |RouteSequences(orbits, source, destination)| == |MatchingRows(rows, source, destination)|
    ensures forall k :: 0 <= k < |MatchingRows(rows, source, destination)| ==>
              RouteSequences(orbits, source, destination)[k][0].Data() == MatchingRows(rows, source, destination)[k]
  {
    if |orbits| != 0 {
      RouteSequencesMatchRows(orbits[1..], rows[1..], source, destination);
    }
  }

  /** Distinct orbit objects give sequences headed by distinct objects. */
  lemma {:induction false} RouteSequencesDistinct(orbits: seq<Orbit>, source: string, destination: string)
    requires forall i, j :: 0 <= i < j < |orbits| ==> orbits[i] != orbits[j]
    ensures forall k, l :: 0 <= k < l < |RouteSequences(orbits, source, destination)| ==>
              RouteSequences(orbits, source, destination)[k][0] != RouteSequences(orbits, source, destination)[l][0]
  {
    if |orbits| != 0 {
      var rest := RouteSequences(orbits[1..], source, destination);
      RouteSequencesDistinct(orbits[1..], source, destination);
      forall k | 0 <= k < |rest| ensures rest[k][0] != orbits[0] {
        var j :| 0 <= j < |orbits[1..]| && orbits[1..][j] == rest[k][0];
        assert orbits[j + 1] == rest[k][0];
      }
    }
  }

  /**
   * getOrbits: fresh orbit objects (the catalogue is rebuilt on every call), one singleton
   * sequence per catalogue orbit running between the two places.
   */
  method GetOrbits(source: string, destination: string) returns (sequences: seq<seq<Orbit>>)
    ensures |sequences| == |MatchingRows(Initializer.OrbitCatalogue(), source, destination)|
    ensures forall k :: 0 <= k < |sequences| ==>
              |sequences[k]| == 1 && sequences[k][0].Data() == MatchingRows(Initializer.OrbitCatalogue(), source, destination)[k]
    ensures forall k, l :: 0 <= k < l < |sequences| ==> sequences[k][0] != sequences[l][0]
    ensures forall o :: o in Footprint(sequences) ==> fresh(o)
  {
    var all := Initializer.GetAllOrbits();
    sequences := RouteSequences(all, source, destination);
    RouteSequencesMatchRows(all, Initializer.OrbitCatalogue(), source, destination);
    RouteSequencesDistinct(all, source, destination);
  }

  // ---------------------------------------------------------------------------
  // calculateOptimizedTraverseTime

  function Min(a: int, b: int): int { if a <= b then a else b }

  function TotalDistance(orbits: seq<OrbitData>): int {
    if |orbits| == 0 then 0 else orbits[0].distance + TotalDistance(orbits[1..])
  }

  function TotalCraters(orbits: seq<OrbitData>): int {
    if |orbits| == 0 then 0 else orbits[0].numberOfCraters + TotalCraters(orbits[1..])
  }

  /** The binding speed limit of a sequence: the smallest segment limit. */
  function MinSpeedLimit(orbits: seq<OrbitData>): int
    requires |orbits| > 0
  {
    if |orbits| == 1 then orbits[0].speedLimit else Min(orbits[0].speedLimit, MinSpeedLimit(orbits[1..]))
  }

  /** The speed the vehicle travels at: the lesser of its own top speed and the binding limit. */
  function ApplicableMaxSpeed(orbits: seq<OrbitData>, vehicle: Vehicle): int
    requires |orbits| > 0
  {
    Min(MinSpeedLimit(orbits), vehicle.speed)
  }

  /** The binding limit is one of the segment limits, and no segment's limit is lower. */
  lemma {:induction false} MinSpeedLimitIsMinimum(orbits: seq<OrbitData>)
    requires |orbits| > 0
    ensures forall i :: 0 <= i < |orbits| ==> MinSpeedLimit(orbits) <= orbits[i].speedLimit
    ensures exists i :: 0 <= i < |orbits| && MinSpeedLimit(orbits) == orbits[i].speedLimit
  {
    if |orbits| > 1 {
      MinSpeedLimitIsMinimum(orbits[1..]);
      assert forall i :: 1 <= i < |orbits| ==> orbits[1..][i - 1] == orbits[i];
      var k :| 0 <= k < |orbits[1..]| && MinSpeedLimit(orbits[1..]) == orbits[1..][k].speedLimit;
      assert MinSpeedLimit(orbits) == orbits[0].speedLimit || MinSpeedLimit(orbits) == orbits[k + 1].speedLimit;
    } else {
      assert MinSpeedLimit(orbits) == orbits[0].speedLimit;
    }
  }

  /** The applicable speed exceeds neither the vehicle's top speed nor any segment's limit, and is one of them. */
  lemma ApplicableMaxSpeedBounds(orbits: seq<OrbitData>, vehicle: Vehicle)
    requires |orbits| > 0
    ensures ApplicableMaxSpeed(orbits, vehicle) <= vehicle.speed
    ensures forall i :: 0 <= i < |orbits| ==> ApplicableMaxSpeed(orbits, vehicle) <= orbits[i].speedLimit
    ensures ApplicableMaxSpeed(orbits, vehicle) == vehicle.speed ||
            exists i :: 0 <= i < |orbits| && ApplicableMaxSpeed(orbits, vehicle) == orbits[i].speedLimit
  {
    MinSpeedLimitIsMinimum(orbits);
  }

  /** With every limit and the top speed at least 1, so is the applicable speed. */
  lemma ApplicableMaxSpeedPositive(orbits: seq<OrbitData>, vehicle: Vehicle)
    requires |orbits| > 0 && vehicle.speed >= 1
    requires forall i :: 0 <= i < |orbits| ==> orbits[i].speedLimit >= 1
    ensures ApplicableMaxSpeed(orbits, vehicle) >= 1
  {
    MinSpeedLimitIsMinimum(orbits);
  }

  /**
   * Math.round(craters * (100 + percentage) / 100.0): the integer nearest to the weather-adjusted
   * crater count, halves rounded up (towards positive infinity, as Math.round does).
   */
  function ActualNumberOfCraters(craters: int, percentage: int): (r: int)
    ensures 100 * r - 50 <= craters * (100 + percentage) < 100 * r + 50
  {
    (craters * (100 + percentage) + 50) / 100
  }

  function NatDiv(n: nat, d: nat): nat
    requires d > 0
  {
    n / d
  }

  /** Java's int division: the quotient is truncated towards zero. */
  function JavaDiv(a: int, b: int): (q: int)
    requires b != 0
    ensures a >= 0 && b > 0 ==> q == a / b
    ensures (a < 0) == (b < 0) ==> q >= 0
    ensures (a < 0) != (b < 0) ==> q <= 0
    ensures var r := a - q * b;
              (r == 0 || (r < 0) == (a < 0)) && (if r < 0 then -r else r) < (if b < 0 then -b else b)
  {
    var n: nat := if a < 0 then -a else a;
    var d: nat := if b < 0 then -b else b;
    var magnitude: int := NatDiv(n, d);
    if (a < 0) == (b < 0) then magnitude else -magnitude
  }

  /** Truncation, not flooring: a negative quotient is rounded up. */
  lemma JavaDivExamples()
    ensures JavaDiv(7, 2) == 3 && JavaDiv(-7, 2) == -3 && JavaDiv(7, -2) == -3 && JavaDiv(-7, -2) == 3
    ensures JavaDiv(360, 12) == 30 && JavaDiv(1080, 10) == 108
  {
  }

  /**
   * calculateOptimizedTraverseTime: distance * 60 divided by the applicable speed, plus the
   * adjusted crater count times the vehicle's crossing time per crater.
   */
  function CalculateOptimizedTraverseTime(weather: Weather, vehicle: Vehicle, orbits: seq<OrbitData>): int
    requires |orbits| > 0 && ApplicableMaxSpeed(orbits, vehicle) != 0
  {
    JavaDiv(TotalDistance(orbits) * MinutesPerHour, ApplicableMaxSpeed(orbits, vehicle))
      + ActualNumberOfCraters(TotalCraters(orbits), weather.craterChangePercentage) * vehicle.timeToCrossCrater
  }

  /** The worked rounding cases: 20 craters at -10% give 18, 10 give 9, and a half rounds up. */
  lemma AdjustedCraterExamples()
    ensures ActualNumberOfCraters(20, -10) == 18 && ActualNumberOfCraters(10, -10) == 9
    ensures ActualNumberOfCraters(10, 20) == 12 && ActualNumberOfCraters(5, -10) == 5
    ensures ActualNumberOfCraters(15, 0) == 15
  {
  }

  /** Well-formed data: non-negative lengths and crater counts. */
  predicate NonNegativeRoute(orbits: seq<OrbitData>) {
    forall i :: 0 <= i < |orbits| ==> orbits[i].distance >= 0 && orbits[i].numberOfCraters >= 0
  }

  lemma {:induction false} TotalsNonNegative(orbits: seq<OrbitData>)
    requires NonNegativeRoute(orbits)
    ensures TotalDistance(orbits) >= 0 && TotalCraters(orbits) >= 0
  {
    if |orbits| != 0 {
      TotalsNonNegative(orbits[1..]);
    }
  }

  /** With positive speeds, at most a full reduction of craters and non-negative data, the time is not negative. */
  lemma TraverseTimeNonNegative(weather: Weather, vehicle: Vehicle, orbits: seq<OrbitData>)
    requires |orbits| > 0 && NonNegativeRoute(orbits)
    requires vehicle.speed >= 1 && vehicle.timeToCrossCrater >= 0
    requires forall i :: 0 <= i < |orbits| ==> orbits[i].speedLimit >= 1
    requires weather.craterChangePercentage >= -100
    ensures ApplicableMaxSpeed(orbits, vehicle) >= 1
    ensures CalculateOptimizedTraverseTime(weather, vehicle, orbits) >= 0
  {
    TotalsNonNegative(orbits);
    ApplicableMaxSpeedPositive(orbits, vehicle);
    var total := TotalCraters(orbits);
    var craters := ActualNumberOfCraters(total, weather.craterChangePercentage);
    MulNonNegative(total, 100 + weather.craterChangePercentage);
    assert craters >= 0;
    MulNonNegative(craters, vehicle.timeToCrossCrater);
    assert JavaDiv(TotalDistance(orbits) * MinutesPerHour, ApplicableMaxSpeed(orbits, vehicle)) >= 0;
  }

  lemma MulNonNegative(x: int, y: int)
    requires x >= 0 && y >= 0
    ensures x * y >= 0
  {
  }

  lemma MulStrictCancel(x: int, y: int, c: int)
    requires c > 0 && x * c < y * c
    ensures x < y
  {
  }

  /** Division by a positive divisor keeps order. */
  lemma DivMonotone(x: int, y: int, d: int)
    requires x <= y && d > 0
    ensures x / d <= y / d
  {
    assert (x / d) * d <= x < (y / d + 1) * d;
    MulStrictCancel(x / d, y / d + 1, d);
  }

  /** Dividing a non-negative amount by a larger positive divisor never gives more. */
  lemma DivAntitone(a: int, small: int, large: int)
    requires a >= 0 && 1 <= small <= large
    ensures a / large <= a / small
  {
    var q := a / large;
    MulMonotone(small, large, q);
    assert q * small <= q * large <= a < (a / small + 1) * small;
    MulStrictCancel(q, a / small + 1, small);
  }

  /** Raising a vehicle's top speed (all else fixed) never makes the trip longer. */
  lemma FasterVehicleNeverSlower(weather: Weather, vehicle: Vehicle, faster: int, orbits: seq<OrbitData>)
    requires |orbits| > 0 && NonNegativeRoute(orbits)
    requires 1 <= vehicle.speed <= faster
    requires forall i :: 0 <= i < |orbits| ==> orbits[i].speedLimit >= 1
    ensures ApplicableMaxSpeed(orbits, vehicle.(speed := faster)) >= ApplicableMaxSpeed(orbits, vehicle) >= 1
    ensures CalculateOptimizedTraverseTime(weather, vehicle.(speed := faster), orbits)
            <= CalculateOptimizedTraverseTime(weather, vehicle, orbits)
  {
    TotalsNonNegative(orbits);
    ApplicableMaxSpeedPositive(orbits, vehicle);
    DivAntitone(TotalDistance(orbits) * MinutesPerHour,
                ApplicableMaxSpeed(orbits, vehicle), ApplicableMaxSpeed(orbits, vehicle.(speed := faster)));
  }

  /** `more` is `orbits` with some crater counts raised and nothing else changed. */
  predicate MoreCraters(orbits: seq<OrbitData>, more: seq<OrbitData>) {
    |more| == |orbits| &&
    forall i :: 0 <= i < |orbits| ==>
      more[i] == orbits[i].(numberOfCraters := more[i].numberOfCraters) &&
      more[i].numberOfCraters >= orbits[i].numberOfCraters
  }

  lemma {:induction false} MoreCratersTotals(orbits: seq<OrbitData>, more: seq<OrbitData>)
    requires MoreCraters(orbits, more)
    ensures TotalDistance(more) == TotalDistance(orbits)
    ensures TotalCraters(more) >= TotalCraters(orbits)
    ensures |orbits| > 0 ==> MinSpeedLimit(more) == MinSpeedLimit(orbits)
  {
    if |orbits| != 0 {
      assert MoreCraters(orbits[1..], more[1..]);
      MoreCratersTotals(orbits[1..], more[1..]);
    }
  }

  lemma MulMonotone(a: int, b: int, c: int)
    requires a <= b && c >= 0
    ensures a * c <= b * c
  {
    assert b * c - a * c == (b - a) * c;
  }

  /** With at most a full reduction, more craters never round to fewer. */
  lemma AdjustedCratersMonotone(fewer: int, more: int, percentage: int)
    requires fewer <= more && percentage >= -100
    ensures ActualNumberOfCraters(fewer, percentage) <= ActualNumberOfCraters(more, percentage)
  {
    MulMonotone(fewer, more, 100 + percentage);
    DivMonotone(fewer * (100 + percentage) + 50, more * (100 + percentage) + 50, 100);
  }

  /** Adding craters (all else fixed) never makes the trip shorter, when the weather does not make craters negative. */
  lemma MoreCratersNeverFaster(weather: Weather, vehicle: Vehicle, orbits: seq<OrbitData>, more: seq<OrbitData>)
    requires |orbits| > 0 && ApplicableMaxSpeed(orbits, vehicle) != 0
    requires MoreCraters(orbits, more)
    requires weather.craterChangePercentage >= -100 && vehicle.timeToCrossCrater >= 0
    ensures ApplicableMaxSpeed(more, vehicle) == ApplicableMaxSpeed(orbits, vehicle)
    ensures CalculateOptimizedTraverseTime(weather, vehicle, orbits)
            <= CalculateOptimizedTraverseTime(weather, vehicle, more)
  {
    MoreCratersTotals(orbits, more);
    var a := ActualNumberOfCraters(TotalCraters(orbits), weather.craterChangePercentage);
    var b := ActualNumberOfCraters(TotalCraters(more), weather.craterChangePercentage);
    AdjustedCratersMonotone(TotalCraters(orbits), TotalCraters(more), weather.craterChangePercentage);
    MulMonotone(a, b, vehicle.timeToCrossCrater);
  }

  // ---------------------------------------------------------------------------
  // getTraverseDetails

  /** Scoring is defined: a non-empty sequence (min().getAsInt()) and a non-zero divisor. */
  predicate Scorable(vehicle: Vehicle, orbits: seq<Orbit>)
    reads set o | o in orbits
  {
    |orbits| > 0 && ApplicableMaxSpeed(Snapshot(orbits), vehicle) != 0
  }

  predicate RowScorable(vehicle: Vehicle, sequences: seq<seq<Orbit>>)
    reads Footprint(sequences)
  {
    forall j :: 0 <= j < |sequences| ==> Scorable(vehicle, sequences[j])
  }

  predicate AllScorable(vehicles: seq<Vehicle>, sequences: seq<seq<Orbit>>)
    reads Footprint(sequences)
  {
    forall i :: 0 <= i < |vehicles| ==> RowScorable(vehicles[i], sequences)
  }

  /** The candidate for one vehicle on one orbit sequence, scored with the orbits' current limits. */
  function Scored(weather: Weather, vehicle: Vehicle, orbits: seq<Orbit>): TraverseDetail
    requires Scorable(vehicle, orbits)
    reads set o | o in orbits
  {
    TraverseDetail(CalculateOptimizedTraverseTime(weather, vehicle, Snapshot(orbits)), orbits, vehicle)
  }

  /** The candidates of one vehicle on the first `count` sequences, in sequence order. */
  function Row(weather: Weather, vehicle: Vehicle, sequences: seq<seq<Orbit>>, count: nat): seq<TraverseDetail>
    requires count <= |sequences| && RowScorable(vehicle, sequences)
    reads Footprint(sequences)
  {
    if count == 0 then []
    else Row(weather, vehicle, sequences, count - 1) + [Scored(weather, vehicle, sequences[count - 1])]
  }

  /**
   * The candidates of the first `count` vehicles: vehicle by vehicle (the outer loop), and
   * within a vehicle sequence by sequence (the inner loop).
   */
  function Candidates(weather: Weather, vehicles: seq<Vehicle>, sequences: seq<seq<Orbit>>, count: nat): seq<TraverseDetail>
    requires count <= |vehicles| && AllScorable(vehicles, sequences)
    reads Footprint(sequences)
  {
    if count == 0 then []
    else Candidates(weather, vehicles, sequences, count - 1) + Row(weather, vehicles[count - 1], sequences, |sequences|)
  }

  /** Every (vehicle, sequence) pair, vehicle-major. */
  function CrossProduct(weather: Weather, vehicles: seq<Vehicle>, sequences: seq<seq<Orbit>>): seq<TraverseDetail>
    requires AllScorable(vehicles, sequences)
    reads Footprint(sequences)
  {
    Candidates(weather, vehicles, sequences, |vehicles|)
  }

  lemma {:induction false} RowAt(weather: Weather, vehicle: Vehicle, sequences: seq<seq<Orbit>>, count: nat)
    requires count <= |sequences| && RowScorable(vehicle, sequences)
    ensures |Row(weather, vehicle, sequences, count)| == count
    ensures forall j :: 0 <= j < count ==> Row(weather, vehicle, sequences, count)[j] == Scored(weather, vehicle, sequences[j])
  {
    if count != 0 {
      RowAt(weather, vehicle, sequences, count - 1);
    }
  }

  lemma MulSucc(n: nat, m: nat)
    ensures (n + 1) * m == n * m + m
  {
  }

  lemma {:induction false} CandidatesLength(weather: Weather, vehicles: seq<Vehicle>, sequences: seq<seq<Orbit>>, count: nat)
    requires count <= |vehicles| && AllScorable(vehicles, sequences)
    ensures |Candidates(weather, vehicles, sequences, count)| == count * |sequences|
  {
    if count != 0 {
      CandidatesLength(weather, vehicles, sequences, count - 1);
      RowAt(weather, vehicles[count - 1], sequences, |sequences|);
      MulSucc(count - 1, |sequences|);
    }
  }

  /** The candidate of vehicle i on sequence j sits at i * |sequences| + j. */
  lemma {:induction false} CandidatesEntry(weather: Weather, vehicles: seq<Vehicle>, sequences: seq<seq<Orbit>>,
                                           count: nat, i: nat, j: nat)
    requires count <= |vehicles| && AllScorable(vehicles, sequences)
    requires i < count && j < |sequences|
    ensures i * |sequences| + j < |Candidates(weather, vehicles, sequences, count)|
    ensures Candidates(weather, vehicles, sequences, count)[i * |sequences| + j] == Scored(weather, vehicles[i], sequences[j])
  {
    var n, m := count - 1, |sequences|;
    CandidatesLength(weather, vehicles, sequences, n);
    RowAt(weather, vehicles[n], sequences, m);
    if i < n {
      CandidatesEntry(weather, vehicles, sequences, n, i, j);
    } else {
      assert i * m + j == n * m + j;
    }
  }

  /** Vehicle i's candidate on sequence j sits at i * |sequences| + j, and there are no others. */
  lemma CrossProductAt(weather: Weather, vehicles: seq<Vehicle>, sequences: seq<seq<Orbit>>, i: nat, j: nat)
    requires AllScorable(vehicles, sequences)
    requires i < |vehicles| && j < |sequences|
    ensures |CrossProduct(weather, vehicles, sequences)| == |vehicles| * |sequences|
    ensures i * |sequences| + j < |CrossProduct(weather, vehicles, sequences)|
    ensures CrossProduct(weather, vehicles, sequences)[i * |sequences| + j] == Scored(weather, vehicles[i], sequences[j])
  {
    CandidatesLength(weather, vehicles, sequences, |vehicles|);
    CandidatesEntry(weather, vehicles, sequences, |vehicles|, i, j);
  }

  /**
   * getTraverseDetails: one scored candidate per (vehicle, sequence) pair, vehicle-major, as
   * the nested forEach appends them.
   */
  method GetTraverseDetails(weather: Weather, vehicles: seq<Vehicle>, sequences: seq<seq<Orbit>>)
    returns (details: seq<TraverseDetail>)
    requires AllScorable(vehicles, sequences)
    ensures details == CrossProduct(weather, vehicles, sequences)
    ensures |details| == |vehicles| * |sequences|
  {
    details := [];
    var i := 0;
    while i < |vehicles|
      invariant 0 <= i <= |vehicles|
      invariant details == Candidates(weather, vehicles, sequences, i)
    {
      label Before:
      var row := ScoreVehicle(weather, vehicles[i], sequences);
      assert unchanged@Before(Footprint(sequences));
      details := details + row;
      i := i + 1;
    }
    CandidatesLength(weather, vehicles, sequences, |vehicles|);
  }

  /** The inner forEach of getTraverseDetails: one vehicle scored on every sequence, in order. */
  method ScoreVehicle(weather: Weather, vehicle: Vehicle, sequences: seq<seq<Orbit>>) returns (row: seq<TraverseDetail>)
    requires RowScorable(vehicle, sequences)
    ensures row == Row(weather, vehicle, sequences, |sequences|)
  {
    row := [];
    var j := 0;
    while j < |sequences|
      invariant 0 <= j <= |sequences|
      invariant row == Row(weather, vehicle, sequences, j)
    {
      row := row + [Scored(weather, vehicle, sequences[j])];
      j := j + 1;
    }
  }

  // ---------------------------------------------------------------------------
  // findOptimumTraverseDetail

  /**
   * The index the loop ends on: the running minimum starts at Integer.MAX_VALUE and is
   * replaced only by a strictly smaller time.
   */
  function FirstMinIndex(details: seq<TraverseDetail>): (r: Option<nat>)
    ensures r.Some? ==> r.value < |details|
  {
    if |details| == 0 then None
    else
      var best := FirstMinIndex(details[..|details| - 1]);
      var minimumTime := if best.None? then JavaStrings.MaxInt else details[best.value].traverseTime;
      if details[|details| - 1].traverseTime < minimumTime then Some(|details| - 1) else best
  }

  /** Candidate k has the least time, strictly less than every earlier one, and below Integer.MAX_VALUE. */
  predicate IsFirstMinimum(details: seq<TraverseDetail>, k: int) {
    && 0 <= k < |details|
    && details[k].traverseTime < JavaStrings.MaxInt
    && (forall j :: 0 <= j < k ==> details[k].traverseTime < details[j].traverseTime)
    && (forall j :: k < j < |details| ==> details[k].traverseTime <= details[j].traverseTime)
  }

  /** The scan finds nothing exactly when no time is below Integer.MAX_VALUE, and otherwise a first minimum. */
  lemma {:induction false} FirstMinIndexSound(details: seq<TraverseDetail>)
    ensures FirstMinIndex(details).None? <==>
            forall j :: 0 <= j < |details| ==> details[j].traverseTime >= JavaStrings.MaxInt
    ensures FirstMinIndex(details).Some? ==> IsFirstMinimum(details, FirstMinIndex(details).value)
  {
    if |details| != 0 {
      var n := |details| - 1;
      var front := details[..n];
      FirstMinIndexSound(front);
      assert forall j :: 0 <= j < n ==> front[j] == details[j];
      var best := FirstMinIndex(front);
      if best.Some? {
        assert IsFirstMinimum(front, best.value);
        assert forall j :: 0 <= j < n ==> details[best.value].traverseTime <= details[j].traverseTime;
      }
    }
  }

  /** The scan ends on index k exactly when k is the first minimum. */
  lemma FirstMinIndexIsFirstMinimum(details: seq<TraverseDetail>)
    ensures FirstMinIndex(details).None? <==>
            forall j :: 0 <= j < |details| ==> details[j].traverseTime >= JavaStrings.MaxInt
    ensures forall k :: IsFirstMinimum(details, k) <==> FirstMinIndex(details) == Some(k)
  {
    FirstMinIndexSound(details);
  }

  /** findOptimumTraverseDetail: the first candidate with the least time, or null when there is none. */
  method FindOptimumTraverseDetail(details: seq<TraverseDetail>) returns (optimum: Option<TraverseDetail>)
    ensures optimum == (match FirstMinIndex(details) case None => None case Some(k) => Some(details[k]))
    ensures optimum.None? <==> forall j :: 0 <= j < |details| ==> details[j].traverseTime >= JavaStrings.MaxInt
    ensures optimum.Some? ==> exists k :: IsFirstMinimum(details, k) && optimum.value == details[k]
  {
    optimum := None;
    var minimumTime := JavaStrings.MaxInt;
    var i := 0;
    while i < |details|
      invariant 0 <= i <= |details|
      invariant FirstMinIndex(details[..i]).None? ==> optimum.None? && minimumTime == JavaStrings.MaxInt
      invariant FirstMinIndex(details[..i]).Some? ==>
                  optimum == Some(details[FirstMinIndex(details[..i]).value]) &&
                  minimumTime == details[FirstMinIndex(details[..i]).value].traverseTime
    {
      assert details[..i + 1][..i] == details[..i];
      var traverseTime := details[i].traverseTime;
      if traverseTime < minimumTime {
        minimumTime := traverseTime;
        optimum := Some(details[i]);
      }
      i := i + 1;
    }
    assert details[..i] == details;
    FirstMinIndexIsFirstMinimum(details);
  }

  // ---------------------------------------------------------------------------
  // generateOutputMessage

  /** " on <name>" for each orbit, in sequence order. */
  function OnClause(orbits: seq<Orbit>): string {
    if |orbits| == 0 then "" else OnClause(orbits[..|orbits| - 1]) + " on " + orbits[|orbits| - 1].name
  }

  /** The text of a plan: the vehicle's name, then each orbit of the sequence. */
  function OutputMessage(detail: TraverseDetail): string {
    "Vehicle " + detail.vehicle.name + OnClause(detail.orbits)
  }

  /** The orbit clauses of a joined sequence are those of its parts, joined. */
  lemma {:induction false} OnClauseConcat(front: seq<Orbit>, back: seq<Orbit>)
    ensures OnClause(front + back) == OnClause(front) + OnClause(back)
  {
    if |back| != 0 {
      var n := |back| - 1;
      assert (front + back)[..|front + back| - 1] == front + back[..n];
      OnClauseConcat(front, back[..n]);
    } else {
      assert front + back == front;
    }
  }

  /** Read from the front: " on " and the first orbit's name, then the clauses of the rest. */
  lemma OnClauseFront(orbit: Orbit, rest: seq<Orbit>)
    ensures OnClause([orbit] + rest) == " on " + orbit.name + OnClause(rest)
  {
    OnClauseConcat([orbit], rest);
    assert OnClause([orbit]) == OnClause([]) + " on " + orbit.name;
  }

  /** A single-orbit plan reads "Vehicle <vehicle> on <orbit>". */
  lemma OutputMessageOneOrbit(detail: TraverseDetail)
    requires |detail.orbits| == 1
    ensures OutputMessage(detail) == "Vehicle " + detail.vehicle.name + " on " + detail.orbits[0].name
  {
    assert detail.orbits[..0] == [];
    assert OnClause(detail.orbits) == " on " + detail.orbits[0].name;
  }

  /** generateOutputMessage: appends the vehicle's name and then " on <name>" per orbit. */
  method GenerateOutputMessage(optimumTraverseDetail: TraverseDetail) returns (output: string)
    ensures output == OutputMessage(optimumTraverseDetail)
  {
    var orbits := optimumTraverseDetail.orbits;
    output := "Vehicle " + optimumTraverseDetail.vehicle.name;
    var i := 0;
    while i < |orbits|
      invariant 0 <= i <= |orbits|
      invariant output == "Vehicle " + optimumTraverseDetail.vehicle.name + OnClause(orbits[..i])
    {
      assert orbits[..i + 1][..i] == orbits[..i];
      output := output + " on " + orbits[i].name;
      i := i + 1;
    }
    assert orbits[..i] == orbits;
  }
}
