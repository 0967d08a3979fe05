/** The entities of the trip planner: vehicles, weathers, orbits, scored candidates, speed-limit input. */
module Model {
  import Enums

  /** A vehicle: its name, top speed (mega miles per hour) and minutes needed per crater. */
  datatype Vehicle = Vehicle(name: string, speed: int, timeToCrossCrater: int)

  /** A weather profile: the condition, the signed crater change in percent, the vehicles allowed. */
  datatype Weather = Weather(condition: Enums.WeatherCondition, craterChangePercentage: int,
                             suitableVehicleNames: seq<string>)

  /** The value of an orbit at one moment: what the time calculation reads. */
  datatype OrbitData = OrbitData(name: string, source: string, destination: string,
                                 distance: int, numberOfCraters: int, speedLimit: int)

  /**
   * An orbit (route segment). Everything but the traffic speed limit is fixed at creation;
   * the speed limit starts as a placeholder and is overwritten with the user's input.
   */
  class Orbit {
    const name: string
    const source: string
    const destination: string
    const distance: int
    const numberOfCraters: int
    var speedLimit: int

    constructor (data: OrbitData)
      ensures Data() == data
    {
      name, source, destination := data.name, data.source, data.destination;
      distance, numberOfCraters, speedLimit := data.distance, data.numberOfCraters, data.speedLimit;
    }

    /** The current value of this orbit. */
    function Data(): OrbitData
      reads this
    {
      OrbitData(name, source, destination, distance, numberOfCraters, speedLimit)
    }
  }

  /** Every orbit object reachable from a list of orbit sequences. */
  function Footprint(sequences: seq<seq<Orbit>>): set<Orbit> {
    set s, o | s in sequences && o in s :: o
  }

  /** The current values of a sequence of orbits, in order. */
  function Snapshot(orbits: seq<Orbit>): (r: seq<OrbitData>)
    reads set o | o in orbits
    ensures |r| == |orbits|
  {
    if |orbits| == 0 then [] else [orbits[0].Data()] + Snapshot(orbits[1..])
  }

  /** Entry i of the snapshot is the current value of orbit i. */
  lemma {:induction false} SnapshotValues(orbits: seq<Orbit>)
    ensures forall i :: 0 <= i < |orbits| ==> Snapshot(orbits)[i] == orbits[i].Data()
  {
    if |orbits| != 0 {
      SnapshotValues(orbits[1..]);
    }
  }

  /** A scored candidate: the time of one vehicle on one orbit sequence. */
  datatype TraverseDetail = TraverseDetail(traverseTime: int, orbits: seq<Orbit>, vehicle: Vehicle)

  /** One entry of the user's speed-limit map. */
  datatype SpeedEntry = SpeedEntry(orbitName: string, speed: int)

  /**
   * The map from orbit name to speed limit, as its entries in iteration order (the
   * application fills a LinkedHashMap, so this is insertion order).
   */
  type SpeedLimitMap = seq<SpeedEntry>

  function Keys(m: SpeedLimitMap): (r: seq<string>)
    ensures |r| == |m| && forall i :: 0 <= i < |m| ==> r[i] == m[i].orbitName
  {
    if |m| == 0 then [] else [m[0].orbitName] + Keys(m[1..])
  }

  /** Map.get on a key that is present: the value of the first entry with that key. */
  function Lookup(m: SpeedLimitMap, name: string): (r: int)
    requires name in Keys(m)
    ensures SpeedEntry(name, r) in m
  {
    if m[0].orbitName == name then m[0].speed else Lookup(m[1..], name)
  }

  /** A Java map never holds a key twice. */
  predicate DistinctKeys(m: SpeedLimitMap) {
    forall i, j :: 0 <= i < j < |m| ==> m[i].orbitName != m[j].orbitName
  }

  /** With distinct keys, the looked-up value is the one stored under that key. */
  lemma {:induction false} LookupFindsEntry(m: SpeedLimitMap, e: SpeedEntry)
    requires DistinctKeys(m) && e in m
    ensures e.orbitName in Keys(m) && Lookup(m, e.orbitName) == e.speed
  {
    var i :| 0 <= i < |m| && m[i] == e;
    if i > 0 {
      assert m[1..][i - 1] == e;
      LookupFindsEntry(m[1..], e);
    }
  }
}
