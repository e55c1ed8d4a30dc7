/**
  The validation rules of the entry prompts, without their re-prompt loops:
  the weather text is normalised with Python's str.capitalize() and accepted
  only as one of the three conditions; a parsed energy value is accepted only
  when it is at least the prompt's minimum, if it has one.
 */
module Validation {
  import opened Records

  /** ASCII upper-casing of one character. */
  function Upper(c: char): char
  {
    if 'a' <= c <= 'z' then (c as int - 32) as char else c
  }

  /** ASCII lower-casing of one character. */
  function Lower(c: char): char
  {
    if 'A' <= c <= 'Z' then (c as int + 32) as char else c
  }

  function LowerAll(s: string): (r: string)
    ensures |r| == |s|
    ensures forall i :: 0 <= i < |s| ==> r[i] == Lower(s[i])
  {
    seq(|s|, i requires 0 <= i < |s| => Lower(s[i]))
  }

  /** str.capitalize(): the first character upper-cased, every other one lower-cased. */
  function Capitalize(s: string): (r: string)
    ensures |r| == |s|
    ensures |s| > 0 ==> r[0] == Upper(s[0])
    ensures forall i :: 1 <= i < |s| ==> r[i] == Lower(s[i])
  {
    if s == [] then [] else [Upper(s[0])] + LowerAll(s[1..])
  }

  /** Two strings that differ only in the case of their letters. */
  predicate SameIgnoringCase(s: string, t: string)
  {
    |s| == |t| && forall i :: 0 <= i < |s| ==> Lower(s[i]) == Lower(t[i])
  }

  /** The weather prompt's acceptance test: the capitalised text must be a condition's name. */
  function ParseWeather(input: string): (r: Option<Weather>)
    ensures r.Some? <==> Capitalize(input) in {"Clear", "Rainy", "Cloudy"}
    ensures r.Some? ==> Name(r.value) == Capitalize(input)
  {
    var w := Capitalize(input);
    if w == "Clear" then Some(Clear)
    else if w == "Rainy" then Some(Rainy)
    else if w == "Cloudy" then Some(Cloudy)
    else None
  }

  lemma CaseLaws(c: char)
    ensures Lower(Upper(c)) == Lower(c) && Upper(Lower(c)) == Upper(c)
    ensures Lower(Lower(c)) == Lower(c) && Upper(Upper(c)) == Upper(c)
  {
  }

  /** Capitalising twice is capitalising once. */
  lemma CapitalizeIdempotent(s: string)
    ensures Capitalize(Capitalize(s)) == Capitalize(s)
  {
    var c := Capitalize(s);
    if s != [] {
      CaseLaws(s[0]);
      forall i | 1 <= i < |s| ensures Capitalize(c)[i] == c[i] {
        CaseLaws(s[i]);
      }
    }
  }

  /** The capitalised form depends only on the letters, not on their case. */
  lemma CapitalizeIgnoresCase(s: string, t: string)
    requires SameIgnoringCase(s, t)
    ensures Capitalize(s) == Capitalize(t)
  {
    if s != [] {
      CaseLaws(s[0]);
      CaseLaws(t[0]);
      assert Upper(s[0]) == Upper(Lower(s[0])) == Upper(Lower(t[0])) == Upper(t[0]);
    }
  }

  /** A name is capitalised already: its first letter is upper case, the rest lower. */
  lemma NameIsCapitalized(w: Weather)
    ensures forall i :: 1 <= i < |Name(w)| ==> Lower(Name(w)[i]) == Name(w)[i]
    ensures Upper(Name(w)[0]) == Name(w)[0]
  {
  }

  /** Re-entering a stored condition's name is accepted as that same condition. */
  lemma ParseWeatherName(w: Weather)
    ensures ParseWeather(Name(w)) == Some(w)
  {
    NameIsCapitalized(w);
    assert Capitalize(Name(w)) == Name(w);
  }

  /**
    The prompt is case-insensitive, and nothing else: a text is accepted as
    w exactly when it spells w's name in any mixture of cases.
   */
  lemma {:induction false} ParseWeatherCaseInsensitive(s: string, w: Weather)
    ensures ParseWeather(s) == Some(w) <==> SameIgnoringCase(s, Name(w))
  {
    var n := Name(w);
    NameIsCapitalized(w);
    if ParseWeather(s) == Some(w) {
      assert Capitalize(s) == n;
      forall i | 0 <= i < |s| ensures Lower(s[i]) == Lower(n[i]) {
        CaseLaws(s[i]);
      }
    }
    if SameIgnoringCase(s, n) {
      CapitalizeIgnoresCase(s, n);
      assert Capitalize(n) == n;
      ParseWeatherName(w);
    }
  }

  lemma ParseWeatherAcceptsMixedCase()
    ensures ParseWeather("cLOUDY") == Some(Cloudy)
  {
    var s, n := "cLOUDY", Name(Cloudy);
    assert n == "Cloudy";
    assert Lower(s[0]) == Lower(n[0]) && Lower(s[1]) == Lower(n[1]) && Lower(s[2]) == Lower(n[2]);
    assert Lower(s[3]) == Lower(n[3]) && Lower(s[4]) == Lower(n[4]) && Lower(s[5]) == Lower(n[5]);
    assert SameIgnoringCase(s, n);
    ParseWeatherCaseInsensitive(s, Cloudy);
  }

  lemma ParseWeatherRejectsSunny()
    ensures ParseWeather("Sunny") == None
  {
    var c := Capitalize("Sunny");
    assert c[0] == 'S';
    assert c != "Clear" && c != "Rainy" && c != "Cloudy";
  }

  /**
    The energy prompt's acceptance test.  parsed is what float() made of the
    text (None when it raised); minValue is the prompt's min_value (None when
    no minimum was given).
   */
  function AcceptEnergy(parsed: Option<real>, minValue: Option<real>): (r: Option<real>)
    ensures r.Some? <==> parsed.Some? && (minValue.Some? ==> parsed.value >= minValue.value)
    ensures r.Some? ==> r.value == parsed.value
  {
    match parsed
    case None => None
    case Some(v) => if minValue.Some? && v < minValue.value then None else Some(v)
  }

  /** With min_value=0, as the entry and edit prompts use, every accepted energy is at least 0. */
  lemma EntryEnergyNonNegative(parsed: Option<real>)
    ensures AcceptEnergy(parsed, Some(0.0)).Some? ==> AcceptEnergy(parsed, Some(0.0)).value >= 0.0
    ensures parsed.Some? && parsed.value < 0.0 ==> AcceptEnergy(parsed, Some(0.0)).None?
  {
  }

  /** With no minimum, as the filter threshold prompt uses, every number is accepted. */
  lemma ThresholdAcceptsAnyNumber(v: real)
    ensures AcceptEnergy(Some(v), None) == Some(v)
  {
  }
}
