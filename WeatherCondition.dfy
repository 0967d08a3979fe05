/** The closed set of weather conditions, their display names and lookups. */
module Enums {
  import opened Wrappers
  import JavaStrings

  /** Declared in this order: SUNNY (0), RAINY (1), WINDY (2). */
  datatype WeatherCondition = Sunny | Rainy | Windy {

    /** The display name each constant is declared with. */
    function ToString(): string {
      match this
      case Sunny => "Sunny"
      case Rainy => "Rainy"
      case Windy => "Windy"
    }

    /** The position of the constant in declaration order. */
    function Ordinal(): (i: nat)
      ensures i < |Values| && Values[i] == this
    {
      match this
      case Sunny => 0
      case Rainy => 1
      case Windy => 2
    }
  }

  /** WeatherCondition.values(), in declaration order. */
  const Values: seq<WeatherCondition> := [Sunny, Rainy, Windy]

  /** The exception `of` throws for a negative argument. */
  datatype BusinessRuleException = BusinessRuleException(message: string)

  /**
   * WeatherCondition.of(i). A negative `i` is rejected with a business-rule error; an `i`
   * past the last constant has no guard in the source (the array access would throw), so
   * it is excluded here.
   */
  function Of(i: int): (r: Result<WeatherCondition, BusinessRuleException>)
    requires i < |Values|
    ensures r.Failure? <==> i < 0
    ensures r.Success? ==> r.value.Ordinal() == i
    ensures r.Failure? ==> r.error.message == "Invalid value for WeatherCondition: " + JavaStrings.IntToString(i)
  {
    if i < 0 then Failure(BusinessRuleException("Invalid value for WeatherCondition: " + JavaStrings.IntToString(i)))
    else Success(Values[i])
  }

  /** Some constant's display name equals the text ignoring case. */
  function AnyMatch(conditions: seq<WeatherCondition>, text: string): (r: bool)
    ensures r <==> exists c :: c in conditions && JavaStrings.EqualsIgnoreCase(c.ToString(), text)
  {
    if |conditions| == 0 then false
    else JavaStrings.EqualsIgnoreCase(conditions[0].ToString(), text) || AnyMatch(conditions[1..], text)
  }

  /** WeatherCondition.contains: true iff the text names a condition, ignoring case; false for null. */
  function Contains(weatherCondition: Option<string>): (r: bool)
    ensures r <==> weatherCondition.Some? &&
                   exists c: WeatherCondition :: JavaStrings.EqualsIgnoreCase(c.ToString(), weatherCondition.value)
  {
    weatherCondition.Some? && AnyMatch(Values, weatherCondition.value)
  }

  /** `of` inverts the declaration position: of(c.ordinal()) is c. */
  lemma OfOrdinal(c: WeatherCondition)
    ensures Of(c.Ordinal()) == Success(c)
  {
  }

  /** A negative position is reported with the offending value in the message. */
  lemma OfNegative()
    ensures Of(-1) == Failure(BusinessRuleException("Invalid value for WeatherCondition: -1"))
  {
    assert JavaStrings.IntToString(-1) == "-1";
    assert "Invalid value for WeatherCondition: " + "-1" == "Invalid value for WeatherCondition: -1";
  }

  /** No two constants have display names that are equal ignoring case. */
  lemma {:induction false} ToStringDistinctIgnoringCase(a: WeatherCondition, b: WeatherCondition, text: string)
    requires JavaStrings.EqualsIgnoreCase(a.ToString(), text)
    requires JavaStrings.EqualsIgnoreCase(b.ToString(), text)
    ensures a == b
  {
    assert JavaStrings.Lower(a.ToString()[0]) == JavaStrings.Lower(text[0]);
    assert JavaStrings.Lower(b.ToString()[0]) == JavaStrings.Lower(text[0]);
  }

  /** Case is ignored: every spelling of a display name is accepted. */
  lemma ContainsIgnoresCase()
    ensures Contains(Some("Sunny")) && Contains(Some("sunny")) && Contains(Some("SUNNY"))
    ensures Contains(Some("rainy")) && Contains(Some("WiNdY"))
  {
    assert JavaStrings.EqualsIgnoreCase(Sunny.ToString(), "Sunny");
    assert JavaStrings.EqualsIgnoreCase(Sunny.ToString(), "sunny");
    assert JavaStrings.EqualsIgnoreCase(Sunny.ToString(), "SUNNY");
    assert JavaStrings.EqualsIgnoreCase(Rainy.ToString(), "rainy");
    assert JavaStrings.EqualsIgnoreCase(Windy.ToString(), "WiNdY");
  }

  /** Null, unknown names and names with extra characters are rejected. */
  lemma ContainsRejectsOthers()
    ensures !Contains(None) && !Contains(Some("")) && !Contains(Some("Sunny ")) && !Contains(Some("Snowy"))
  {
    assert !JavaStrings.EqualsIgnoreCase(Sunny.ToString(), "Snowy") by {
      assert "Sunny"[1..] == "unny" && "Snowy"[1..] == "nowy";
    }
  }
}
