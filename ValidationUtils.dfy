/** Null-safe emptiness and blankness tests on references, strings and collections. */
module ValidationUtils {
  import opened Wrappers
  import JavaStrings

  /** isEmpty(Object): only a null reference is empty. */
  predicate IsEmptyObject<T>(obj: Option<T>) { obj.None? }

  function IsNotEmptyObject<T>(obj: Option<T>): (r: bool)
    ensures r == !IsEmptyObject(obj)
  {
    obj != None
  }

  /** isEmpty(String): null or of length zero. */
  predicate IsEmptyString(str: Option<string>) { str.None? || |str.value| == 0 }

  function IsNotEmptyString(str: Option<string>): (r: bool)
    ensures r == !IsEmptyString(str)
  {
    str.Some? && |str.value| != 0
  }

  /** isBlank(String): null, or nothing is left after String.trim. */
  function IsBlank(str: Option<string>): (r: bool)
    ensures r <==> str.None? || forall i :: 0 <= i < |str.value| ==> JavaStrings.IsTrimmed(str.value[i])
  {
    str.None? || JavaStrings.Trim(str.value) == ""
  }

  function IsNotBlank(str: Option<string>): (r: bool)
    ensures r == !IsBlank(str)
  {
    str.Some? && JavaStrings.Trim(str.value) != ""
  }

  /** isEmpty(Collection): null or of size zero. */
  predicate IsEmptyCollection<E>(collection: Option<seq<E>>) {
    collection.None? || |collection.value| == 0
  }

  function IsNotEmptyCollection<E>(collection: Option<seq<E>>): (r: bool)
    ensures r == !IsEmptyCollection(collection)
  {
    collection.Some? && |collection.value| != 0
  }

  /** getList(varargs): the arguments as a list, same length and order. */
  function GetList<T>(inputs: seq<T>): (r: seq<T>)
    ensures |r| == |inputs| && forall i :: 0 <= i < |inputs| ==> r[i] == inputs[i]
  {
    inputs
  }

  /** A string of spaces is not empty, but it is blank; any text with a visible character is not blank. */
  lemma BlankVersusEmpty()
    ensures IsBlank(None) && IsBlank(Some("")) && IsEmptyString(Some(""))
    ensures IsBlank(Some(" ")) && !IsEmptyString(Some(" "))
    ensures IsBlank(Some(" \t\n ")) && IsNotBlank(Some(" x "))
  {
    assert !JavaStrings.IsTrimmed(" x "[1]);
  }

  /** A string whose first character survives trim is not blank. */
  lemma VisibleHeadIsNotBlank(str: string)
    requires |str| > 0 && !JavaStrings.IsTrimmed(str[0])
    ensures IsNotBlank(Some(str))
  {
  }
}
