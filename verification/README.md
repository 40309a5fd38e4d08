# DELA contact and project database — verified model of the record logic

`DELA_DATABASE.py` is a desktop application for an office. It
keeps contacts (companies and persons) and projects in SQLite. Almost all
of it builds windows. This project models the string and sequence logic
underneath those windows:

- **Phone numbers** (`Phone`, `CountryTable`, `Text`). The country-code
  table and its drop-down labels (`COUNTRY_CODES`, `code_label_list`,
  `code_to_label`, `label_to_code`). The digit filter `only_digits`. The
  display formatter `format_phone` with its Belgian, Dutch and generic
  branches.
- **National registry number** (`NationalId`). `parse_rrn` cuts a stored
  number into groups YY, MM, DD, SSS and CC. The person save composes
  "a.b.c-d.e" from the five entry fields.
- **Project numbering and the new-project save** (`Projects`).
  `_next_project_number` is a method with its loop. `_exists_projectnummer`
  is membership in the `projectnummer` column. The wizard's `save` is a
  decision function: it refuses a missing or taken number, or returns the
  record to insert, including the composed address.
- **Saving a person** (`Persons`). The name check, then the exact and
  near-duplicate warnings (`get_close_matches(..., n=1, cutoff=0.8)`), then
  the user's answer, then the row to insert or update.
- **City to postcode** (`Cities`). The built-in fallback table of
  `load_flemish_cities`, the contact forms' autofill, and the project
  wizard's autofill through `_postcode_for_city`.

The database enters as a value. The `projectnummer` column is a
`seq<Option<string>>`, with `None` for NULL. The stored persons are a
sequence of (first name, last name) pairs. Dialog answers are parameters.
So is the similarity ratio of `difflib.SequenceMatcher`.

Python's string primitives are written out in `Text`: `strip`, `lstrip`,
`rstrip`, `join` and the digit filter. Whitespace is exactly the set of
characters for which `str.isspace` holds. A digit is an ASCII `'0'..'9'`.
Python strings compare by code point, and `Persons.StrLe` defines that order.

## Model

| member | source | states |
|---|---|---|
| Text.OnlyDigits | DELA_DATABASE.py:257-258 | the result holds digits only and is no longer than the input |
| Text.OnlyDigitsOfDigits | DELA_DATABASE.py:257-258 | a text made of digits is its own digit filter |
| Text.StripKeepsDigits | DELA_DATABASE.py:249 | `strip` removes no digit: the digits of the stripped text are those of the text |
| Text.JoinSpacesKeepsDigits | DELA_DATABASE.py:277 | joining digit groups with spaces and filtering digits gives the groups run together |
| CountryTable.CountryName | DELA_DATABASE.py:252-255 | the lookup finds nothing exactly when no entry has the code, and a name it finds belongs to an entry with that code |
| CountryTable.CountryCodesDistinct | DELA_DATABASE.py:220-240 | no code occurs twice in the table |
| CountryTable.CountryCodesArePlain | DELA_DATABASE.py:220-240 | every table code has no space and no surrounding whitespace |
| CountryTable.CodeToLabel | DELA_DATABASE.py:251-255 | a code in the table becomes "code (name)"; a code missing from it becomes "code (?)" |
| CountryTable.CodeLabelList | DELA_DATABASE.py:244-245 | one label per table entry, in table order; each label turns back into its entry's code |
| CountryTable.BeforeFirstSpace | DELA_DATABASE.py:249 | the result is the longest space-free prefix: a prefix without a space, followed by a space or by the end |
| CountryTable.LabelToCode | DELA_DATABASE.py:247-249 | the code read from a label has no space |
| CountryTable.LabelRoundTrip | DELA_DATABASE.py:247-255 | reading back the label of a code gives the code exactly when the code has no space and no surrounding whitespace, for unknown codes too |
| CountryTable.LeadingSpaceLabel | DELA_DATABASE.py:247-249 | the commented example " +32 (België) " gives "", because the split on the first space comes before the strip |
| Phone.Pairs | DELA_DATABASE.py:275-276 | the pairs run together are the input, there are none only for an empty input, and each is two characters wide except possibly a single last one |
| Phone.EffectiveCode | DELA_DATABASE.py:263-264 | an empty code means "+32"; any other code is kept |
| Phone.PhoneGroupsWellGrouped | DELA_DATABASE.py:269-276 | the groups are non-empty digit strings that together are the digits; the first has the first-group width and the rest are pairs with possibly a single last digit |
| Phone.FormatBelgian | DELA_DATABASE.py:266-278 | without digits "+32 (0)"; with digits "+32 (0) " and then the space-separated groups, the first 3 wide for a mobile number and 2 otherwise: `strip` removes nothing |
| Phone.FormatDutch | DELA_DATABASE.py:280-286 | without digits "+31 (0)"; with digits "+31 (0) " and then a 2-digit group and pairs, space-separated, for every digit count |
| Phone.FormatGeneric | DELA_DATABASE.py:287-290 | a code without leading whitespace, other than +32, with digits renders "code (0) " and then the pairs of all digits: `strip` removes nothing |
| Phone.FormatPhone | DELA_DATABASE.py:260-290 | with digits present and a code without leading whitespace, every branch renders "code (0) " followed by the space-separated groups |
| Phone.FormatPhoneShape | DELA_DATABASE.py:260-290 | for a code without leading whitespace and a number with digits, the rendering is "code (0) " then the groups; for +32 the first-group width is 3 exactly when there are at least 8 digits starting with 4 or the mobile hint is set, otherwise 2; elsewhere it is 2; the first group has min(width, digit count) digits |
| Phone.FormatPhoneNoDigits | DELA_DATABASE.py:262-268 | for a code without leading whitespace, a number without digits renders as "code (0)" in every branch |
| Phone.FormatPhoneKeepsDigits | DELA_DATABASE.py:260-290 | formatting never drops, adds or reorders a digit: the digits of the result are the code's digits, then "0", then the number's digits |
| NationalId.Slice | DELA_DATABASE.py:1101 | Python slicing with clamped bounds: length min(j,n) - min(i,n); the in-range slice, the tail when only j is past the end, empty past the end; digits stay digits |
| NationalId.CutPositions | DELA_DATABASE.py:1101 | the five cuts 0:2, 2:4, 4:6, 6:9, 9:11 together are the first eleven characters |
| NationalId.ParseRrn | DELA_DATABASE.py:1099-1102 | each group is digits within its width; the groups run together are the first eleven digits; the cuts fall at min(2,n), min(4,n), min(6,n), min(9,n) for n digits |
| NationalId.ShortParseExample | DELA_DATABASE.py:1099-1102 | "12345" is cut into "12", "34", "5" and two empty groups |
| NationalId.Truncate | DELA_DATABASE.py:1203-1207 | a field keeps exactly its first min(width, digits) digits, and a field already in shape is kept whole |
| NationalId.Truncated | DELA_DATABASE.py:1203-1207 | each cut field is the leading digits of its input that fit its width (2, 2, 2, 3, 2); fields already within them are unchanged |
| NationalId.ComposeRrn | DELA_DATABASE.py:1203-1208 | "" exactly when all five cut fields are empty; otherwise exactly "a.b.c-d.e" of the cut fields, partial masks included, whose digits are the cut fields run together |
| NationalId.PartialMaskExample | DELA_DATABASE.py:1203-1208 | a form with only the year "85" is saved as "85..-." |
| NationalId.MaskDigits | DELA_DATABASE.py:1208 | the separators of "a.b.c-d.e" contribute no digit, for any five strings |
| NationalId.Mask | DELA_DATABASE.py:1208 | the rendering is four characters longer than the groups and has the same digits |
| NationalId.ParseComposeParse | DELA_DATABASE.py:1099-1102 | parsing a composed parse gives the same groups back |
| NationalId.ComposeParseIdempotent | DELA_DATABASE.py:1203-1208 | loading and saving a stored number twice gives what doing it once gives |
| NationalId.ComposeParseCanonical | DELA_DATABASE.py:1099-1102 | an input with at least eleven digits is saved as the mask of its first eleven digits |
| NationalId.ParseComposeFull | DELA_DATABASE.py:1099-1102 | a complete number, parsed back from its mask, gives its groups back |
| Projects.DecimalString | DELA_DATABASE.py:678 | `str(n)`: a non-empty digit string with the value n and no leading zero unless n is 0 |
| Projects.WholeNumberIsPattern | DELA_DATABASE.py:673 | a value has a whole number exactly when it is optional whitespace, one or more digits, optional whitespace; the number is the value of those digits |
| Projects.WholeNumberOfDecimal | DELA_DATABASE.py:673-678 | the decimal string of n reads back as n |
| Projects.MaxNumber | DELA_DATABASE.py:668-677 | the result bounds every number present and is 0 or one of them |
| Projects.NumbersAt | DELA_DATABASE.py:670-675 | entry k's number is the whole number of entry k, none for NULL |
| Projects.NextProjectNumber | DELA_DATABASE.py:662-678 | the loop returns the decimal string of one more than the largest whole-number entry |
| Projects.NextNumberExceedsAll | DELA_DATABASE.py:662-678 | the suggestion exceeds every whole-number entry |
| Projects.NextNumberIsLeast | DELA_DATABASE.py:662-678 | every positive number above all whole-number entries is at least the suggestion; the maximum is 0 or is attained by an entry, and the suggestion on an empty column is "1" |
| Projects.NextNumberIsFree | DELA_DATABASE.py:662-682 | the suggestion is never an existing project number |
| Projects.NextNumberExample | DELA_DATABASE.py:662-678 | numbers "3", "7" and "V2" give the suggestion "8" |
| Projects.ProjectNumberExists | DELA_DATABASE.py:680-682 | true exactly when some entry equals the number; NULL entries never match |
| Projects.ComposeAddress | DELA_DATABASE.py:784-789 | the address is "street, postcode city" from the trimmed fields, with the comma only between two present parts and the space only between a present postcode and city |
| Projects.AddressEmptyIffBlank | DELA_DATABASE.py:784-789 | the address is empty exactly when street, postcode and city are all blank |
| Projects.Locality | DELA_DATABASE.py:788 | joining postcode and city with a space and stripping keeps the space only between two present parts |
| Projects.SaveNewProject | DELA_DATABASE.py:763-797 | an empty number is refused first, then a taken one; an inserted record carries the trimmed, free number, the composed address, and the trimmed bureau, linked number, client, project name and status |
| Projects.SaveKeepsNumbersDistinct | DELA_DATABASE.py:768-773 | inserting through the wizard keeps project numbers distinct |
| Projects.SuggestedNumberIsAccepted | DELA_DATABASE.py:702-773 | the suggested number, left as it is, passes both checks of the save |
| Persons.FullName | DELA_DATABASE.py:1186 | for trimmed names: "first last" when both are present, otherwise the one that is |
| Persons.ExistingNames | DELA_DATABASE.py:1181-1182 | one rendered name per stored person |
| Persons.ExistingNamesAt | DELA_DATABASE.py:1181-1182 | stored person k renders as its "first last", stripped |
| Persons.StrLeTotal | DELA_DATABASE.py:1198 | any two strings are ordered one way or the other |
| Persons.StrLeTransitive | DELA_DATABASE.py:1198 | the string order is transitive |
| Persons.StrLeAntisymmetric | DELA_DATABASE.py:1198 | two strings ordered both ways are equal |
| Persons.BestCloseMatch | DELA_DATABASE.py:1198 | no match exactly when every similarity is below 0.8; otherwise a stored name at or above 0.8 that is greatest by (score, name) |
| Persons.DuplicatePrompt | DELA_DATABASE.py:1192-1200 | an exact match warns "already exists"; otherwise the warning is fuzzy exactly when some name reaches 0.8, naming the best one; no warning otherwise |
| Persons.Record | DELA_DATABASE.py:1203-1223 | the row carries the trimmed names, the composed national number, the codes read from the two labels and the digits of the two numbers |
| Persons.SavePerson | DELA_DATABASE.py:1180-1236 | a missing name refuses first; edits, and only edits, update by the old name key without warnings; a new person is declined exactly when a warning is raised and not confirmed, and inserted otherwise |
| Persons.ExactDuplicatePrompt | DELA_DATABASE.py:1192-1195 | a stored name equal to the new full name raises the exact warning, never the fuzzy one |
| Persons.WarningNeedsConfirmation | DELA_DATABASE.py:1192-1200 | a warned new person is inserted exactly when the user confirms, and declined otherwise |
| Persons.DistinctNameNoPrompt | DELA_DATABASE.py:1192-1200 | with no stored name equal or at 0.8 or above, no warning is raised |
| Persons.UnwarnedPersonIsInserted | DELA_DATABASE.py:1192-1236 | without a warning, a new person is inserted whatever the answer would have been |
| Cities.FallbackIsCityTable | DELA_DATABASE.py:312-318 | the fallback table has no empty city, and each of its postcodes has four digits |
| Cities.FormAutofill | DELA_DATABASE.py:1013-1016 | a known city, as typed, overwrites the postcode; an unknown city leaves it unchanged |
| Cities.ProbePostcode | DELA_DATABASE.py:639-642 | the first probed dictionary that knows the city gives the postcode; a postcode found always comes from such a dictionary; with none the answer is "" |
| Cities.PostcodeForCityAsWritten | DELA_DATABASE.py:637-652 | as written, the lookup answers "" for every city, whatever the city table holds |
| Cities.WizardAutofillAsWritten | DELA_DATABASE.py:745-748 | as written, the wizard never changes the postcode field |
| Cities.PostcodeForCity | DELA_DATABASE.py:637-652 | the intended lookup is the probe of the city table itself |
| Cities.WizardAutofill | DELA_DATABASE.py:745-748 | a typed postcode is never changed; an empty one takes the trimmed city's postcode; an unknown city changes nothing |
| Cities.WizardAutofillIdempotent | DELA_DATABASE.py:745-748 | filling twice gives what filling once gives |
| Cities.AutofillVariantsAgree | DELA_DATABASE.py:745-748 | with an empty postcode field and a city without surrounding spaces, the wizard and the contact forms fill in the same postcode |
| Cities.GentExample | DELA_DATABASE.py:745-748 | typing Gent with an empty field: the intended lookup fills in 9000, the written one leaves the field empty |

## Left out

- The Tkinter windows, widgets, events, login and menu screens. These are UI.
- The SQLite helpers, the schema and colleague management. These are I/O.
  The database is a snapshot value passed to the model.
- The project wizard's INSERT passes no commit flag. Whether the row
  persists is not modelled. `SaveNewProject` returns the row the wizard
  means to insert.
- A failing `SELECT` in `_next_project_number` returns "1". Errors from
  the database are outside the model.
- The search screens. They delegate filtering and ordering to SQLite
  `LIKE` and `ORDER BY`.
- CSV loading of the city table. This is file I/O. The version in effect
  also calls a `detect_encoding` that the file never defines. Only the
  built-in fallback table is modelled.
- `_all_known_cities`. It only fills the wizard's drop-down list.
- difflib's `SequenceMatcher` ratio is a parameter. `get_close_matches`
  also checks `real_quick_ratio` and `quick_ratio`. Both are upper bounds
  of `ratio`, so its filter is `ratio >= 0.8`, and that is what is modelled.
  The ratio is a real number, not a float.
- The timestamp `now_str` and the logged-in user `current_user`. They are
  a clock and global state.
- Logo scaling. It uses floating point and PIL.
- Linked-number ("gekoppeld nummer") handling. The code only strips and
  stores the field after a "V"/"D" prefill; no validation exists to model.
- `str.isdigit` accepts every Unicode decimal digit. This model accepts
  only '0'..'9'.
- Persons.ExistingNames: NULL first or last names render as "None" in
  Python; the model's stored names are strings.
- CountryTable.LabelToCode: models the code as written, which splits on
  the first space before stripping. A label with a leading space, such as
  the comment's own example " +32 (België) ", gives "" rather than the
  "+32" the comment promises. The labels the application builds
  (`code_label_list`, `code_to_label`) never start with a space.
- Phone.FormatPhone: its shape is stated for country codes that do not
  start with whitespace, for the reason given for FormatPhoneShape.
- Phone.FormatGeneric: likewise stated for codes without leading whitespace.
- Phone.FormatPhoneShape: proved for country codes that do not start with
  whitespace. The generic branch would strip such leading whitespace off
  the rendering.
- Phone.FormatPhoneNoDigits: likewise proved for codes without leading
  whitespace; " +33" renders as "+33 (0)", not as the code followed by
  " (0)".
- The person form's other fields are left out of the model's record. The
  company, salutation, e-mail, function, street, house number, postcode,
  city and country are copied as typed. The legal form is derived: it is
  stored only when a company is filled in, and is "" otherwise
  (DELA_DATABASE.py:1213). The model's record holds the names, the national
  number, and the two phone codes and numbers.
- The company save. It has no duplicate logic, only the same field
  derivations.

## Findings

| source | as written | input that shows it | evidently intended | confidence | as-written member | corrected member |
|---|---|---|---|---|---|---|
| DELA_DATABASE.py:637-652 | `_postcode_for_city` looks for globals `POSTCODES`, `CITY_TO_POSTCODE`, `VLAAMSE_POSTCODES` and helpers `get_postcode_for_city`, `postcode_for_city`, none of which the file defines; the city table is `FLEMISH_CITIES` | type "Gent" in the new-project wizard (its city drop-down is empty, since `_all_known_cities` finds no list either) with an empty postcode field: the field stays empty | look the trimmed city up in `FLEMISH_CITIES`, so "Gent" fills in "9000" | not executed | Cities.WizardAutofillAsWritten | Cities.WizardAutofill |
