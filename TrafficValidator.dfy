/**
 * Input validation: the weather text must name a condition, the speed-limit map must be
 * present and non-empty, and every speed limit must be at least 1. The result is the
 * concatenated failure text, empty when everything is valid.
 */
module Validator {
  import opened Wrappers
  import opened Sequences
  import JavaStrings
  import Enums
  import opened Model
  import ValidationUtils

  // Each long message is written as two literals joined by `+`: the verifier cannot index
  // into a long string literal, and the proofs below need each message's first character.
  const WeatherPrefix := "=== please enter a valid " + "weather condition input :  "
  const WeatherSuffix := " : is invalid \n"
  const NoRouteMessage := "No route/orbit found " + "for the given source-destination."
  const SpeedPrefix := "Invalid maximum traffic speed(s) for : "
  const SpeedSuffix := ". \n=== Only +ve integer(s) accepted, " + "please enter valid input(s)."

  /** The keys among `names` whose looked-up speed is below 1, in the order given. */
  function InvalidAmong(m: SpeedLimitMap, names: seq<string>): (r: seq<string>)
    requires forall n :: n in names ==> n in Keys(m)
    ensures IsSubsequence(r, names)
    ensures forall n :: n in r <==> n in names && Lookup(m, n) < 1
  {
    if |names| == 0 then []
    else if Lookup(m, names[0]) < 1 then
      var rest := InvalidAmong(m, names[1..]);
      assert ([names[0]] + rest)[1..] == rest;
      [names[0]] + rest
    else InvalidAmong(m, names[1..])
  }

  /** An invalid name is reported as often as it is given; a valid one not at all. */
  lemma {:induction false} InvalidAmongCounts(m: SpeedLimitMap, names: seq<string>)
    requires forall n :: n in names ==> n in Keys(m)
    ensures forall n :: multiset(InvalidAmong(m, names))[n] ==
              if n in names && Lookup(m, n) < 1 then multiset(names)[n] else 0
  {
    if |names| != 0 {
      MultisetOfCons(names);
      InvalidAmongCounts(m, names[1..]);
      if Lookup(m, names[0]) < 1 {
        assert InvalidAmong(m, names) == [names[0]] + InvalidAmong(m, names[1..]);
        MultisetOfCons(InvalidAmong(m, names));
      }
    }
  }

  /** The orbit names whose speed limit is below 1, in the map's key order. */
  function InvalidOrbitNames(m: SpeedLimitMap): (r: seq<string>)
    ensures IsSubsequence(r, Keys(m))
    ensures forall n :: n in r <==> n in Keys(m) && Lookup(m, n) < 1
  {
    InvalidAmong(m, Keys(m))
  }

  /** What the validator accepts. */
  predicate InputsValid(weatherType: Option<string>, m: Option<SpeedLimitMap>) {
    && Enums.Contains(weatherType)
    && m.Some? && |m.value| > 0
    && forall n :: n in Keys(m.value) ==> Lookup(m.value, n) >= 1
  }

  /** The weather part: empty for a known condition, otherwise the text (or "null") quoted. */
  function WeatherMessage(weatherType: Option<string>): string {
    if Enums.Contains(weatherType) then ""
    else WeatherPrefix + JavaStrings.JavaString(weatherType) + WeatherSuffix
  }

  /** The route part: no map or an empty one, or the list of orbits with a limit below 1. */
  function RouteMessage(m: Option<SpeedLimitMap>): string {
    if m.None? || |m.value| == 0 then NoRouteMessage
    else
      var invalid := InvalidOrbitNames(m.value);
      if ValidationUtils.IsNotEmptyCollection(Some(invalid)) then SpeedPrefix + JavaStrings.ListToString(invalid) + SpeedSuffix
      else ""
  }

  function ValidationMessage(weatherType: Option<string>, m: Option<SpeedLimitMap>): string {
    WeatherMessage(weatherType) + RouteMessage(m)
  }

  /** Appending three parts to a builder equals appending their concatenation. */
  lemma AppendParts(builder: string, a: string, b: string, c: string)
    ensures builder + a + b + c == builder + (a + b + c)
    ensures builder == "" ==> builder + a + b + c == a + b + c
  {
  }

  /** validateUserInputs: the weather check, then the route check, appended to one builder. */
  method ValidateUserInputs(weatherType: Option<string>, orbitSpeedLimitMap: Option<SpeedLimitMap>)
    returns (invalidMessage: string)
    ensures invalidMessage == ValidationMessage(weatherType, orbitSpeedLimitMap)
    ensures invalidMessage == "" <==> InputsValid(weatherType, orbitSpeedLimitMap)
  {
    invalidMessage := "";
    if !Enums.Contains(weatherType) {
      AppendParts(invalidMessage, WeatherPrefix, JavaStrings.JavaString(weatherType), WeatherSuffix);
      invalidMessage := invalidMessage + WeatherPrefix + JavaStrings.JavaString(weatherType) + WeatherSuffix;
    }
    if orbitSpeedLimitMap.None? || |orbitSpeedLimitMap.value| == 0 {
      invalidMessage := invalidMessage + NoRouteMessage;
    } else {
      var invalidOrbitNames := InvalidOrbitNames(orbitSpeedLimitMap.value);
      if ValidationUtils.IsNotEmptyCollection(Some(invalidOrbitNames)) {
        var listed := JavaStrings.ListToString(invalidOrbitNames);
        AppendParts(invalidMessage, SpeedPrefix, listed, SpeedSuffix);
        invalidMessage := invalidMessage + SpeedPrefix + listed + SpeedSuffix;
      } else {
        assert invalidMessage + "" == invalidMessage;
      }
    }
    ValidationMessageEmptyIffValid(weatherType, orbitSpeedLimitMap);
  }

  /** The message is empty exactly when the inputs are valid. */
  lemma ValidationMessageEmptyIffValid(weatherType: Option<string>, m: Option<SpeedLimitMap>)
    ensures ValidationMessage(weatherType, m) == "" <==> InputsValid(weatherType, m)
  {
    if m.Some? && |m.value| > 0 {
      var invalid := InvalidOrbitNames(m.value);
      if |invalid| > 0 {
        assert invalid[0] in invalid;
      }
    }
  }

  /**
   * Every failure text starts with a visible character, so the message is blank exactly when
   * it is empty: the caller's isNotBlank test and the validity test agree.
   */
  lemma ValidationMessageBlankIffEmpty(weatherType: Option<string>, m: Option<SpeedLimitMap>)
    ensures ValidationUtils.IsNotBlank(Some(ValidationMessage(weatherType, m))) <==> !InputsValid(weatherType, m)
  {
    ValidationMessageEmptyIffValid(weatherType, m);
    var message := ValidationMessage(weatherType, m);
    if message != "" {
      if WeatherMessage(weatherType) != "" {
        assert message[0] == WeatherPrefix[0] == '=';
      } else if m.None? || |m.value| == 0 {
        assert message[0] == NoRouteMessage[0] == 'N';
      } else {
        assert message[0] == SpeedPrefix[0] == 'I';
      }
      assert !JavaStrings.IsTrimmed(message[0]);
      ValidationUtils.VisibleHeadIsNotBlank(message);
    }
  }

  /** An unknown weather text is quoted in the message ("null" when there is none). */
  lemma WeatherTextQuoted(weatherType: Option<string>, m: Option<SpeedLimitMap>)
    requires !Enums.Contains(weatherType)
    ensures IsSubstringOfMessage(JavaStrings.JavaString(weatherType), weatherType, m)
  {
    var text := JavaStrings.JavaString(weatherType);
    assert JavaStrings.OccursAt(text, WeatherPrefix + text + WeatherSuffix, |WeatherPrefix|);
    JavaStrings.SubstringOfConcat(text, WeatherMessage(weatherType), RouteMessage(m));
  }

  predicate IsSubstringOfMessage(part: string, weatherType: Option<string>, m: Option<SpeedLimitMap>) {
    JavaStrings.IsSubstring(part, ValidationMessage(weatherType, m))
  }

  /** Without a map, or with an empty one, the message ends with the no-route text and lists no speeds. */
  lemma MissingRoutesReported(weatherType: Option<string>, m: Option<SpeedLimitMap>)
    requires m.None? || |m.value| == 0
    ensures ValidationMessage(weatherType, m) == WeatherMessage(weatherType) + NoRouteMessage
    ensures !InputsValid(weatherType, m)
  {
  }

  /** Every orbit whose limit is below 1 is named in the message. */
  lemma InvalidNamesListed(weatherType: Option<string>, m: SpeedLimitMap, name: string)
    requires name in Keys(m) && Lookup(m, name) < 1
    ensures IsSubstringOfMessage(name, weatherType, Some(m))
  {
    var invalid := InvalidOrbitNames(m);
    assert name in invalid;
    var i :| 0 <= i < |invalid| && invalid[i] == name;
    JavaStrings.ListToStringListsEveryItem(invalid, i);
    var listed := JavaStrings.ListToString(invalid);
    JavaStrings.SubstringOfConcat(name, SpeedPrefix, listed);
    JavaStrings.SubstringOfConcat(name, SpeedPrefix + listed, SpeedSuffix);
    JavaStrings.SubstringOfConcat(name, WeatherMessage(weatherType), RouteMessage(Some(m)));
  }

  /** Only the orbit whose limit is below 1 is reported. */
  lemma InvalidOrbitNamesExample()
    ensures InvalidOrbitNames([SpeedEntry("Orbit1", 0), SpeedEntry("Orbit2", 6)]) == ["Orbit1"]
  {
    var m := [SpeedEntry("Orbit1", 0), SpeedEntry("Orbit2", 6)];
    assert Keys(m) == ["Orbit1", "Orbit2"];
    assert Lookup(m, "Orbit2") == 6 by { assert m[0].orbitName != "Orbit2" by { assert "Orbit1"[5] != "Orbit2"[5]; } }
    assert Keys(m)[1..][1..] == [];
  }

  /** A null weather and an orbit with limit 0: both failures, weather first, "null" quoted. */
  lemma BothFailuresExample()
    ensures ValidationMessage(None, Some([SpeedEntry("Orbit1", 0), SpeedEntry("Orbit2", 6)]))
            == WeatherPrefix + "null" + WeatherSuffix + (SpeedPrefix + "[Orbit1]" + SpeedSuffix)
  {
    InvalidOrbitNamesExample();
    assert JavaStrings.ListToString(["Orbit1"]) == "[Orbit1]";
  }
}
