/**
 * The hardcoded catalogues: three weathers, three vehicles in tie-break priority order,
 * and two orbits from Silk Drob to Hallitharam.
 */
module Initializer {
  import opened Enums
  import opened Model

  /** Bike, Tuktuk, Car: the order in which ties between vehicles are broken. */
  function AllVehicles(): seq<Vehicle> {
    [Vehicle("Bike", 10, 2), Vehicle("Tuktuk", 12, 1), Vehicle("Car", 20, 3)]
  }

  /** The names of the given vehicles, in the same order. */
  function VehicleNames(vehicles: seq<Vehicle>): (names: seq<string>)
    ensures |names| == |vehicles| && forall i :: 0 <= i < |vehicles| ==> names[i] == vehicles[i].name
  {
    if |vehicles| == 0 then [] else [vehicles[0].name] + VehicleNames(vehicles[1..])
  }

  /** getAllVehicleNames: the name projection of the vehicle catalogue. */
  function AllVehicleNames(): (names: seq<string>)
    ensures |names| == |AllVehicles()| && forall i :: 0 <= i < |names| ==> names[i] == AllVehicles()[i].name
  {
    VehicleNames(AllVehicles())
  }

  /** Sunny lowers craters by 10%, Rainy raises them by 20% and excludes the bike, Windy changes nothing. */
  function AllWeatherDetails(): seq<Weather> {
    [ Weather(Sunny, -10, ["Bike", "Tuktuk", "Car"]),
      Weather(Rainy, 20, ["Tuktuk", "Car"]),
      Weather(Windy, 0, AllVehicleNames()) ]
  }

  /** The orbit rows; the speed limit -1 is a placeholder until the user's input is written in. */
  function OrbitCatalogue(): seq<OrbitData> {
    [ OrbitData("Orbit1", "Silk Drob", "Hallitharam", 18, 20, -1),
      OrbitData("Orbit2", "Silk Drob", "Hallitharam", 20, 10, -1) ]
  }

  /** getAllOrbits: new orbit objects on every call, one per catalogue row. */
  method GetAllOrbits() returns (orbits: seq<Orbit>)
    ensures |orbits| == |OrbitCatalogue()|
    ensures forall i :: 0 <= i < |orbits| ==> orbits[i].Data() == OrbitCatalogue()[i]
    ensures forall i :: 0 <= i < |orbits| ==> fresh(orbits[i])
    ensures forall i, j :: 0 <= i < j < |orbits| ==> orbits[i] != orbits[j]
  {
    var orbit1 := new Orbit(OrbitCatalogue()[0]);
    var orbit2 := new Orbit(OrbitCatalogue()[1]);
    orbits := [orbit1, orbit2];
  }

  /** One weather per condition, in declaration order, each percentage at least -100. */
  lemma WeatherCatalogueFacts()
    ensures |AllWeatherDetails()| == |Values|
    ensures forall i :: 0 <= i < |Values| ==> AllWeatherDetails()[i].condition == Values[i]
    ensures forall w :: w in AllWeatherDetails() ==> w.craterChangePercentage >= -100
    ensures forall w, n :: w in AllWeatherDetails() && n in w.suitableVehicleNames ==> n in AllVehicleNames()
    ensures AllWeatherDetails()[2].suitableVehicleNames == ["Bike", "Tuktuk", "Car"]
  {
    assert AllVehicleNames() == ["Bike", "Tuktuk", "Car"];
  }

  /** The vehicles have distinct names, positive speeds and non-negative crossing times. */
  lemma VehicleCatalogueFacts()
    ensures forall i, j :: 0 <= i < j < |AllVehicles()| ==> AllVehicles()[i].name != AllVehicles()[j].name
    ensures forall v :: v in AllVehicles() ==> v.speed >= 1 && v.timeToCrossCrater >= 0
  {
  }
}
