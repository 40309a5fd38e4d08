/**
 * The country-code table behind the phone drop-downs (`COUNTRY_CODES`,
 * `code_label_list`, `label_to_code`, `code_to_label`).  The drop-down shows
 * labels such as "+32 (België)"; only the code "+32" is stored.
 */
module CountryTable {
  import opened Text
  import opened Wrappers

  /** The (code, country name) pairs offered in the country-code drop-downs, in display order. */
  const CountryCodes: seq<(string, string)> := [
    ("+32", "België"),
    ("+31", "Nederland"),
    ("+33", "Frankrijk"),
    ("+34", "Spanje"),
    ("+352", "Luxemburg"),
    ("+41", "Zwitserland"),
    ("+420", "Tsjechië"),
    ("+48", "Polen"),
    ("+36", "Hongarije"),
    ("+351", "Portugal"),
    ("+44", "Engeland/VK"),
    ("+353", "Ierland"),
    ("+45", "Denemarken"),
    ("+39", "Italië"),
    ("+30", "Griekenland"),
    ("+43", "Oostenrijk"),
    ("+46", "Zweden"),
    ("+358", "Finland"),
    ("+47", "Noorwegen")
  ]

  /** The name of the first table entry whose code is `code`. */
  function CountryName(table: seq<(string, string)>, code: string): (name: Option<string>)
    ensures name.None? <==> forall i :: 0 <= i < |table| ==> table[i].0 != code
    ensures name.Some? ==> exists i :: 0 <= i < |table| && table[i] == (code, name.value)
  {
    if table == [] then None
    else if table[0].0 == code then Some(table[0].1)
    else
      var rest := CountryName(table[1..], code);
      assert rest.Some? ==> exists i :: 0 <= i < |table| && table[i] == (code, rest.value) by {
        if rest.Some? {
          var i :| 0 <= i < |table[1..]| && table[1..][i] == (code, rest.value);
          assert table[i + 1] == (code, rest.value);
        }
      }
      rest
  }

  /** No code occurs twice in the table, so the name of a code does not depend on which entry is found. */
  lemma CountryCodesDistinct()
    ensures forall i, j :: 0 <= i < j < |CountryCodes| ==> CountryCodes[i].0 != CountryCodes[j].0
  {
  }

  /** A code made of '+' and digits only. */
  predicate IsCodeToken(c: string)
  {
    c != [] && forall j :: 0 <= j < |c| ==> c[j] == '+' || IsDigit(c[j])
  }

  /** Every code in the table is a plain token: no space, no surrounding whitespace. */
  lemma CountryCodesArePlain()
    ensures forall i :: 0 <= i < |CountryCodes| ==> ' ' !in CountryCodes[i].0 && Strip(CountryCodes[i].0) == CountryCodes[i].0
  {
    forall i | 0 <= i < |CountryCodes|
      ensures ' ' !in CountryCodes[i].0 && Strip(CountryCodes[i].0) == CountryCodes[i].0
    {
      var c := CountryCodes[i].0;
      assert IsCodeToken(c);
      assert !IsSpace(c[0]) && !IsSpace(c[|c| - 1]);
      StripExact([], c, []);
      assert [] + c + [] == c;
    }
  }

  /** `code_to_label`: "+32" becomes "+32 (België)"; a code missing from the table becomes "<code> (?)". */
  function CodeToLabel(code: string): (text: string)
    ensures forall i :: 0 <= i < |CountryCodes| && CountryCodes[i].0 == code ==>
      text == code + " (" + CountryCodes[i].1 + ")"
    ensures (forall i :: 0 <= i < |CountryCodes| ==> CountryCodes[i].0 != code) ==>
      text == code + " (?)"
  {
    CountryCodesDistinct();
    match CountryName(CountryCodes, code)
    case Some(name) => code + " (" + name + ")"
    case None => code + " (?)"
  }

  /** `code_label_list`: the drop-down labels, one per table entry, in table order. */
  function CodeLabelList(): (labels: seq<string>)
    ensures |labels| == |CountryCodes|
    ensures forall i :: 0 <= i < |labels| ==> labels[i] == CodeToLabel(CountryCodes[i].0)
    ensures forall i :: 0 <= i < |labels| ==> LabelToCode(labels[i]) == CountryCodes[i].0
  {
    var labels := seq(|CountryCodes|, i requires 0 <= i < |CountryCodes| =>
      CountryCodes[i].0 + " (" + CountryCodes[i].1 + ")");
    forall i | 0 <= i < |labels| ensures LabelToCode(labels[i]) == CountryCodes[i].0 {
      CountryCodesArePlain();
      LabelRoundTrip(CountryCodes[i].0);
    }
    labels
  }

  /** `label.split(" ", 1)[0]`: the text before the first space character. */
  function BeforeFirstSpace(s: string): (r: string)
    ensures ' ' !in r
    ensures |r| <= |s| && r == s[..|r|]
    ensures |r| < |s| ==> s[|r|] == ' '
  {
    if s == [] || s[0] == ' ' then [] else [s[0]] + BeforeFirstSpace(s[1..])
  }

  /**
   * `label_to_code`: the text before the first space, stripped, so
   * "+32 (België)" becomes "+32".  The split comes before the strip, so a
   * label with a leading space gives "" (see `LeadingSpaceLabel`).
   */
  function LabelToCode(text: string): (code: string)
    ensures ' ' !in code
  {
    StripKeepsChars(BeforeFirstSpace(text));
    Strip(BeforeFirstSpace(text))
  }

  /**
   * A label made by `code_to_label` turns back into its code exactly when the
   * code contains no space and has no surrounding whitespace; this covers
   * codes missing from the table, whose label is "<code> (?)".
   */
  lemma LabelRoundTrip(code: string)
    ensures LabelToCode(CodeToLabel(code)) == code <==> ' ' !in code && Strip(code) == code
  {
    var text := CodeToLabel(code);
    if ' ' !in code {
      assert text == code + text[|code|..];
      assert text[|code|] == ' ';
      BeforeFirstSpaceAt(code, text[|code|..]);
    }
  }

  /**
   * The example " +32 (België) " in the comment on `label_to_code` gives "",
   * not "+32": the first space is the leading one.
   */
  lemma LeadingSpaceLabel()
    ensures LabelToCode(" +32 (België) ") == ""
  {
    assert BeforeFirstSpace(" +32 (België) ") == [];
  }

  lemma {:induction false} BeforeFirstSpaceAt(token: string, tail: string)
    requires ' ' !in token
    requires tail != [] && tail[0] == ' '
    ensures BeforeFirstSpace(token + tail) == token
  {
    if token == [] {
      assert token + tail == tail;
    } else {
      assert (token + tail)[1..] == token[1..] + tail;
      BeforeFirstSpaceAt(token[1..], tail);
    }
  }

}
