/**
 * Postcode autofill from the city table `FLEMISH_CITIES`: the built-in
 * fallback table, the lookups made by the company and person forms, and the
 * new-project wizard's lookup `_postcode_for_city`, both as written and as
 * evidently intended.
 */
module Cities {
  import opened Text

  /** The table `load_flemish_cities` builds when no CSV file is present. */
  const FallbackCities: map<string, string> := map[
    "Antwerpen" := "2000", "Gent" := "9000", "Brugge" := "8000",
    "Leuven" := "3000", "Kortrijk" := "8500", "Hasselt" := "3500",
    "Mechelen" := "2800", "Oostende" := "8400", "Aalst" := "9300",
    "Roeselare" := "8800", "Sint-Niklaas" := "9100"]

  /** What `load_flemish_cities` guarantees of either source: no empty city and no empty postcode. */
  ghost predicate CityTable(cities: map<string, string>)
  {
    forall city | city in cities :: city != [] && cities[city] != []
  }

  /** The fallback table is a city table of four-digit postcodes. */
  lemma FallbackIsCityTable()
    ensures CityTable(FallbackCities)
    ensures forall city | city in FallbackCities :: |FallbackCities[city]| == 4 && AllDigits(FallbackCities[city])
  {
  }

  /** The company and person forms: a known city, as typed, overwrites the postcode. */
  function FormAutofill(cities: map<string, string>, city: string, postcode: string): (pc: string)
    ensures city in cities ==> pc == cities[city]
    ensures city !in cities ==> pc == postcode
  {
    if city in cities then cities[city] else postcode
  }

  /**
   * The module-level dictionaries the wizard's lookup can see, by global
   * name.  The city table is held under `FLEMISH_CITIES`; no global is
   * called `POSTCODES`, `CITY_TO_POSTCODE` or `VLAAMSE_POSTCODES`.
   */
  function ModuleDicts(cities: map<string, string>): map<string, map<string, string>>
  {
    map["FLEMISH_CITIES" := cities]
  }

  /** The global names `_postcode_for_city` probes, in order. */
  const ProbedNames: seq<string> := ["POSTCODES", "CITY_TO_POSTCODE", "VLAAMSE_POSTCODES"]

  /** The global `name` holds a dictionary that has the city as a key. */
  predicate Knows(dicts: map<string, map<string, string>>, name: string, city: string)
  {
    name in dicts && city in dicts[name]
  }

  /** `names[i]` is the first probed global that knows the city. */
  predicate FirstToKnow(dicts: map<string, map<string, string>>, names: seq<string>, city: string, i: nat)
  {
    i < |names| && Knows(dicts, names[i], city) && forall j :: 0 <= j < i ==> !Knows(dicts, names[j], city)
  }

  /** The first probed dictionary that knows the city gives the postcode, otherwise "". */
  function ProbePostcode(dicts: map<string, map<string, string>>, names: seq<string>, city: string): (pc: string)
    ensures forall i: nat | FirstToKnow(dicts, names, city, i) :: pc == dicts[names[i]][city]
    ensures pc != [] ==> exists i :: 0 <= i < |names| && names[i] in dicts && city in dicts[names[i]] && pc == dicts[names[i]][city]
    ensures (forall i :: 0 <= i < |names| ==> names[i] !in dicts || city !in dicts[names[i]]) ==> pc == []
  {
    if names == [] then []
    else if names[0] in dicts && city in dicts[names[0]] then dicts[names[0]][city]
    else
      var pc := ProbePostcode(dicts, names[1..], city);
      assert forall i :: 0 <= i < |names[1..]| ==> names[1..][i] == names[i + 1];
      pc
  }

  /**
   * `_postcode_for_city` as written.  It probes dictionary globals that do
   * not exist, so it finds nothing.  Its second loop probes the helper
   * functions `get_postcode_for_city` and `postcode_for_city`; no such global
   * is defined either, so that loop also finds nothing and is not modelled.
   */
  function PostcodeForCityAsWritten(cities: map<string, string>, city: string): (pc: string)
    ensures pc == []
  {
    var dicts := ModuleDicts(cities);
    assert forall i :: 0 <= i < |ProbedNames| ==> ProbedNames[i] !in dicts by {
      assert dicts.Keys == {"FLEMISH_CITIES"};
    }
    ProbePostcode(dicts, ProbedNames, city)
  }

  /**
   * The wizard's `on_city_selected` as written: it would fill an empty
   * postcode field with the lookup's answer, but whatever the city table
   * holds, the field is never changed.
   */
  function WizardAutofillAsWritten(cities: map<string, string>, city: string, postcode: string): (pc: string)
    ensures pc == postcode
  {
    var found := PostcodeForCityAsWritten(cities, Strip(city));
    if found != [] && postcode == [] then found else postcode
  }

  /** `_postcode_for_city` as intended: a lookup in the city table. */
  function PostcodeForCity(cities: map<string, string>, city: string): (pc: string)
    ensures pc == ProbePostcode(ModuleDicts(cities), ["FLEMISH_CITIES"], city)
  {
    if city in cities then cities[city] else []
  }

  /**
   * The wizard's `on_city_selected` as intended: the trimmed city's postcode
   * fills the field only when the field is empty.
   */
  function WizardAutofill(cities: map<string, string>, city: string, postcode: string): (pc: string)
    ensures postcode != [] ==> pc == postcode
    ensures postcode == [] && Strip(city) in cities ==> pc == cities[Strip(city)]
    ensures Strip(city) !in cities ==> pc == postcode
  {
    var found := PostcodeForCity(cities, Strip(city));
    if found != [] && postcode == [] then found else postcode
  }

  /** Filling twice changes nothing the first fill did not. */
  lemma WizardAutofillIdempotent(cities: map<string, string>, city: string, postcode: string)
    ensures WizardAutofill(cities, city, WizardAutofill(cities, city, postcode)) == WizardAutofill(cities, city, postcode)
  {
  }

  /** On an empty postcode field and a city typed without surrounding spaces, the wizard and the forms agree. */
  lemma AutofillVariantsAgree(cities: map<string, string>, city: string)
    requires Strip(city) == city
    ensures WizardAutofill(cities, city, []) == FormAutofill(cities, city, [])
  {
  }

  /**
   * Typing Gent with an empty postcode field (the city drop-down is empty,
   * since `_all_known_cities` finds no list either): the intended lookup
   * fills in 9000, the written one leaves the field empty.
   */
  lemma GentExample()
    ensures WizardAutofill(FallbackCities, "Gent", []) == "9000"
    ensures WizardAutofillAsWritten(FallbackCities, "Gent", []) == []
  {
    assert Strip("Gent") == "Gent" by {
      StripExact([], "Gent", []);
      assert [] + "Gent" + [] == "Gent";
    }
    assert "Gent" in FallbackCities;
  }
}
