/**
 * The parts of java.lang.String, java.lang.Integer and java.util.AbstractCollection
 * that the trip planner relies on: case-insensitive comparison, trim, decimal
 * parsing and printing, and the text form of a list.
 */
module JavaStrings {
  import opened Wrappers

  const MinInt: int := -0x8000_0000
  const MaxInt: int := 0x7fff_ffff

  /** The 32-bit range of a Java `int`. */
  predicate IsInt(x: int) { MinInt <= x <= MaxInt }

  // ---------------------------------------------------------------------------
  // Case-insensitive comparison (ASCII case folding)

  function Lower(c: char): (r: char)
    ensures 'A' <= c <= 'Z' ==> 'a' <= r <= 'z'
    ensures !('A' <= c <= 'Z') ==> r == c
  {
    if 'A' <= c <= 'Z' then (c as int + 32) as char else c
  }

  /** String.equalsIgnoreCase on non-null arguments: same length, same characters up to case. */
  predicate EqualsIgnoreCase(a: string, b: string) {
    |a| == |b| && (|a| == 0 || (Lower(a[0]) == Lower(b[0]) && EqualsIgnoreCase(a[1..], b[1..])))
  }

  /** The character-by-character reading of the comparison. */
  lemma {:induction false} EqualsIgnoreCasePointwise(a: string, b: string)
    ensures EqualsIgnoreCase(a, b) <==> |a| == |b| && forall i :: 0 <= i < |a| ==> Lower(a[i]) == Lower(b[i])
  {
    if |a| != 0 && |a| == |b| {
      EqualsIgnoreCasePointwise(a[1..], b[1..]);
      assert forall i :: 1 <= i < |a| ==> a[1..][i - 1] == a[i] && b[1..][i - 1] == b[i];
    }
  }

  /** Every string equals itself ignoring case. */
  lemma {:induction false} EqualsIgnoreCaseReflexive(a: string)
    ensures EqualsIgnoreCase(a, a)
  {
    if |a| != 0 {
      EqualsIgnoreCaseReflexive(a[1..]);
    }
  }

  /** The comparison does not depend on which side is the receiver. */
  lemma EqualsIgnoreCaseSymmetric(a: string, b: string)
    ensures EqualsIgnoreCase(a, b) <==> EqualsIgnoreCase(b, a)
  {
    EqualsIgnoreCasePointwise(a, b);
    EqualsIgnoreCasePointwise(b, a);
  }

  // ---------------------------------------------------------------------------
  // String.trim: strips every leading and trailing character whose code is at most U+0020

  predicate IsTrimmed(c: char) { c <= ' ' }

  function TrimLeading(s: string): (r: string)
    ensures |r| <= |s| && r == s[|s| - |r|..]
    ensures r == "" || !IsTrimmed(r[0])
    ensures r == "" <==> forall i :: 0 <= i < |s| ==> IsTrimmed(s[i])
    ensures forall i :: 0 <= i < |s| - |r| ==> IsTrimmed(s[i])
  {
    if |s| > 0 && IsTrimmed(s[0]) then TrimLeading(s[1..]) else s
  }

  function TrimTrailing(s: string): (r: string)
    ensures |r| <= |s| && r == s[..|r|]
    ensures r == "" || !IsTrimmed(r[|r| - 1])
    ensures r == "" <==> forall i :: 0 <= i < |s| ==> IsTrimmed(s[i])
    ensures forall i :: |r| <= i < |s| ==> IsTrimmed(s[i])
  {
    if |s| > 0 && IsTrimmed(s[|s| - 1]) then TrimTrailing(s[..|s| - 1]) else s
  }

  function Trim(s: string): (r: string)
    ensures r == "" <==> forall i :: 0 <= i < |s| ==> IsTrimmed(s[i])
    ensures r == "" || (!IsTrimmed(r[0]) && !IsTrimmed(r[|r| - 1]))
  {
    var t := TrimLeading(s);
    assert t != "" ==> t[0] == s[|s| - |t|];
    TrimTrailing(t)
  }

  // ---------------------------------------------------------------------------
  // Integer.parseInt(s, 10) and Integer.toString(i), ASCII digits only

  predicate IsDigit(c: char) { '0' <= c <= '9' }

  predicate AllDigits(s: string) { forall i :: 0 <= i < |s| ==> IsDigit(s[i]) }

  function DigitValue(c: char): (d: nat)
    requires IsDigit(c)
    ensures d < 10
  {
    c as int - '0' as int
  }

  function DigitChar(d: nat): (c: char)
    requires d < 10
    ensures IsDigit(c) && DigitValue(c) == d
  {
    ('0' as int + d) as char
  }

  /** The value of a string of decimal digits, most significant first. */
  function DigitsValue(s: string): nat
    requires AllDigits(s)
  {
    if |s| == 0 then 0 else DigitsValue(s[..|s| - 1]) * 10 + DigitValue(s[|s| - 1])
  }

  /** The text after an optional leading '+' or '-'. */
  function Unsigned(s: string): (r: string)
    ensures r == s || (|s| > 0 && (s[0] == '-' || s[0] == '+') && r == s[1..])
  {
    if |s| > 0 && (s[0] == '-' || s[0] == '+') then s[1..] else s
  }

  /** Integer.parseInt: an optional '+' or '-', then one or more digits, and a value in int range. */
  function ParseInt(s: string): (r: Option<int>)
    ensures r.Some? ==> IsInt(r.value)
    ensures r.Some? ==> |s| > 0 && (r.value < 0 ==> s[0] == '-')
  {
    if |s| == 0 then None
    else
      var digits := Unsigned(s);
      if |digits| == 0 || !AllDigits(digits) then None
      else
        var v: int := if s[0] == '-' then -(DigitsValue(digits) as int) else DigitsValue(digits);
        if IsInt(v) then Some(v) else None
  }

  /** Integer.toString on a non-negative value: its shortest decimal form. */
  function NatToString(n: nat): (r: string)
    ensures |r| > 0 && AllDigits(r) && DigitsValue(r) == n
    ensures |r| > 1 ==> r[0] != '0'
  {
    if n < 10 then [DigitChar(n)]
    else
      var prefix := NatToString(n / 10);
      var r := prefix + [DigitChar(n % 10)];
      assert r[..|r| - 1] == prefix;
      r
  }

  /** Integer.toString: a '-' in front of the magnitude of a negative value. */
  function IntToString(i: int): string {
    if i < 0 then "-" + NatToString(-i) else NatToString(i)
  }

  /** Leading zeros removed, keeping at least one digit. */
  function StripLeadingZeros(d: string): (r: string)
    ensures |d| > 0 ==> |r| > 0
  {
    if |d| > 1 && d[0] == '0' then StripLeadingZeros(d[1..]) else d
  }

  /** The text with its '+' sign and leading zeros removed, and "-0" written as "0". */
  function CanonicalInt(s: string): string {
    var m := StripLeadingZeros(Unsigned(s));
    if |s| > 0 && s[0] == '-' && m != "0" then "-" + m else m
  }

  /** A non-digit anywhere except as the leading sign makes the text unparseable. */
  lemma ParseIntRejectsStrayCharacter(s: string, i: int)
    requires 0 <= i < |s| && !IsDigit(s[i])
    requires i > 0 || (s[0] != '-' && s[0] != '+')
    ensures ParseInt(s) == None
  {
    if s[0] == '-' || s[0] == '+' {
      assert Unsigned(s)[i - 1] == s[i];
    } else {
      assert Unsigned(s)[i] == s[i];
    }
  }

  /** The empty text and a bare sign are unparseable. */
  lemma ParseIntRejectsNoDigits(s: string)
    requires |Unsigned(s)| == 0
    ensures ParseInt(s) == None
  {
  }

  /** Well-formed digits whose value lies outside the int range are unparseable. */
  lemma ParseIntRejectsOutOfRange(s: string)
    requires |s| > 0 && AllDigits(Unsigned(s))
    requires if s[0] == '-' then DigitsValue(Unsigned(s)) > -MinInt else DigitsValue(Unsigned(s)) > MaxInt
    ensures ParseInt(s) == None
  {
  }

  /** A leading zero does not change the value. */
  lemma {:induction false} LeadingZeroValue(d: string)
    requires AllDigits(d) && |d| > 0 && d[0] == '0'
    ensures AllDigits(d[1..]) && DigitsValue(d) == DigitsValue(d[1..])
  {
    if |d| > 1 {
      var p := d[..|d| - 1];
      assert p[0] == '0';
      LeadingZeroValue(p);
      assert d[1..][..|d| - 2] == p[1..];
    }
  }

  /** The value is at least the first digit's. */
  lemma {:induction false} HeadBound(d: string)
    requires AllDigits(d) && |d| > 0
    ensures DigitsValue(d) >= DigitValue(d[0])
  {
    if |d| > 1 {
      var p := d[..|d| - 1];
      assert p[0] == d[0];
      HeadBound(p);
    }
  }

  /** Digits without a leading zero are exactly what Integer.toString prints for their value. */
  lemma {:induction false} CanonicalDigits(d: string)
    requires AllDigits(d) && |d| > 0 && (|d| == 1 || d[0] != '0')
    ensures NatToString(DigitsValue(d)) == d
  {
    var c := d[|d| - 1];
    assert DigitChar(DigitValue(c)) == c;
    if |d| > 1 {
      var p := d[..|d| - 1];
      assert p[0] == d[0];
      HeadBound(p);
      CanonicalDigits(p);
      var n := DigitsValue(d);
      assert n == DigitsValue(p) * 10 + DigitValue(c);
      assert n / 10 == DigitsValue(p) && n % 10 == DigitValue(c);
      assert d == p + [c];
    }
  }

  /** Stripping leading zeros gives what Integer.toString prints for the value. */
  lemma {:induction false} StripLeadingZerosValue(d: string)
    requires AllDigits(d) && |d| > 0
    ensures NatToString(DigitsValue(d)) == StripLeadingZeros(d)
  {
    if |d| > 1 && d[0] == '0' {
      LeadingZeroValue(d);
      StripLeadingZerosValue(d[1..]);
    } else {
      CanonicalDigits(d);
    }
  }

  /** Whatever text parses, it is the printed value up to a '+' sign, leading zeros and "-0". */
  lemma ParseIntCanonical(s: string, v: int)
    requires ParseInt(s) == Some(v)
    ensures CanonicalInt(s) == IntToString(v)
  {
    var d := Unsigned(s);
    StripLeadingZerosValue(d);
    var m := StripLeadingZeros(d);
    if s[0] == '-' && DigitsValue(d) != 0 {
      assert DigitsValue(m) != DigitsValue("0");
    }
  }

  /** The text Integer.parseInt accepts as a number: an optional sign followed by one or more digits. */
  predicate WellFormedInt(s: string) {
    |Unsigned(s)| > 0 && AllDigits(Unsigned(s))
  }

  /** Integer.toString of a non-negative value starts with a digit, of a negative one with '-'. */
  lemma IntToStringHead(v: int)
    ensures |IntToString(v)| > 0
    ensures v < 0 <==> IntToString(v)[0] == '-'
    ensures v < 0 ==> IntToString(v)[1..] == NatToString(-v)
  {
    if v >= 0 {
      assert IsDigit(NatToString(v)[0]);
    }
  }

  /**
   * Every well-formed text whose canonical form prints an int is accepted with that int,
   * whatever its sign and leading zeros ("+05" reads as 5, "-00" as 0).
   */
  lemma ParseIntAcceptsWellFormed(s: string, v: int)
    requires WellFormedInt(s) && IsInt(v)
    requires CanonicalInt(s) == IntToString(v)
    ensures ParseInt(s) == Some(v)
  {
    var d := Unsigned(s);
    var n := DigitsValue(d);
    StripLeadingZerosValue(d);
    var m := StripLeadingZeros(d);
    assert m == NatToString(n);
    IntToStringHead(v);
    if s[0] == '-' && m != "0" {
      assert IntToString(v) == "-" + m;
      assert v < 0;
      assert NatToString(-v) == NatToString(n);
      assert -v == n;
    } else {
      assert IntToString(v) == m;
      assert IsDigit(m[0]);
      assert v >= 0;
      assert NatToString(v) == NatToString(n);
      if s[0] == '-' {
        assert DigitsValue(m) == DigitsValue("0");
      }
    }
  }

  /** Integer.parseInt reads `v` exactly when the text is well formed and its canonical form prints `v`. */
  lemma ParseIntExact(s: string, v: int)
    ensures ParseInt(s) == Some(v) <==> WellFormedInt(s) && IsInt(v) && CanonicalInt(s) == IntToString(v)
  {
    if ParseInt(s) == Some(v) {
      ParseIntCanonical(s, v);
    }
    if WellFormedInt(s) && IsInt(v) && CanonicalInt(s) == IntToString(v) {
      ParseIntAcceptsWellFormed(s, v);
    }
  }

  /** Parsing what Integer.toString prints gives the value back. */
  lemma IntToStringRoundTrip(i: int)
    requires IsInt(i)
    ensures ParseInt(IntToString(i)) == Some(i)
  {
    if i < 0 {
      var s := IntToString(i);
      assert s[1..] == NatToString(-i);
    } else {
      assert IsDigit(NatToString(i)[0]);
    }
  }

  // ---------------------------------------------------------------------------
  // Text forms used when building messages

  /** StringBuilder.append(String): a null reference is written as "null". */
  function JavaString(s: Option<string>): string {
    if s.None? then "null" else s.value
  }

  /** The elements separated by ", ". */
  function Join(items: seq<string>): string {
    if |items| == 0 then ""
    else if |items| == 1 then items[0]
    else items[0] + ", " + Join(items[1..])
  }

  /** AbstractCollection.toString of a list of strings: "[a, b, c]". */
  function ListToString(items: seq<string>): string {
    "[" + Join(items) + "]"
  }

  /** `part` occurs in `whole` starting at position `k`. */
  predicate OccursAt(part: string, whole: string, k: int) {
    0 <= k && k + |part| <= |whole| && whole[k..k + |part|] == part
  }

  /** `part` occurs in `whole` somewhere. */
  predicate IsSubstring(part: string, whole: string) {
    exists k | 0 <= k <= |whole| :: OccursAt(part, whole, k)
  }

  /** An occurrence in the right part is an occurrence in the whole, shifted by the left part. */
  lemma OccursShifted(part: string, left: string, right: string, k: int)
    requires OccursAt(part, right, k)
    ensures OccursAt(part, left + right, |left| + k)
  {
    var start := |left| + k;
    assert (left + right)[start..start + |part|] == right[k..k + |part|];
  }

  /** A substring of the left or of the right part is a substring of the whole. */
  lemma SubstringOfConcat(part: string, left: string, right: string)
    ensures IsSubstring(part, left) ==> IsSubstring(part, left + right)
    ensures IsSubstring(part, right) ==> IsSubstring(part, left + right)
  {
    if IsSubstring(part, left) {
      var k :| 0 <= k <= |left| && OccursAt(part, left, k);
      assert (left + right)[k..k + |part|] == part;
      assert OccursAt(part, left + right, k);
    }
    if IsSubstring(part, right) {
      var k :| 0 <= k <= |right| && OccursAt(part, right, k);
      OccursShifted(part, left, right, k);
    }
  }

  /** Every element of a list appears in its text form. */
  lemma {:induction false} JoinListsEveryItem(items: seq<string>, i: nat)
    requires i < |items|
    ensures IsSubstring(items[i], Join(items))
  {
    if |items| == 1 {
      assert OccursAt(items[0], Join(items), 0);
    } else if i == 0 {
      assert OccursAt(items[0], items[0], 0);
      SubstringOfConcat(items[0], items[0], ", " + Join(items[1..]));
      assert items[0] + ", " + Join(items[1..]) == items[0] + (", " + Join(items[1..]));
    } else {
      JoinListsEveryItem(items[1..], i - 1);
      SubstringOfConcat(items[i], items[0] + ", ", Join(items[1..]));
    }
  }

  /** Every element of a list appears in AbstractCollection.toString of it. */
  lemma ListToStringListsEveryItem(items: seq<string>, i: nat)
    requires i < |items|
    ensures IsSubstring(items[i], ListToString(items))
  {
    JoinListsEveryItem(items, i);
    SubstringOfConcat(items[i], "[", Join(items));
    SubstringOfConcat(items[i], "[" + Join(items), "]");
  }
}
