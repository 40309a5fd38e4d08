/**
 * Project numbering and the new-project wizard's save gate
 * (`_next_project_number`, `_exists_projectnummer`, the wizard's `save`).
 * The store is represented by the snapshot of the `projectnummer` column it
 * returns: one entry per project, `None` for a NULL value.
 */
module Projects {
  import opened Text
  import opened Wrappers

  function DigitValue(c: char): nat
    requires IsDigit(c)
  {
    c as int - '0' as int
  }

  function DigitChar(d: nat): (c: char)
    requires d < 10
    ensures IsDigit(c) && DigitValue(c) == d
  {
    ('0' as int + d) as char
  }

  /** Python's `int()` of a digit string; leading zeros are allowed. */
  function DigitsValue(s: string): nat
    requires AllDigits(s)
  {
    if s == [] then 0 else DigitsValue(s[..|s| - 1]) * 10 + DigitValue(s[|s| - 1])
  }

  /** Python's `str(n)` for a natural number. */
  function DecimalString(n: nat): (s: string)
    ensures s != [] && AllDigits(s)
    ensures DigitsValue(s) == n
    ensures s[0] == '0' ==> n == 0
    ensures |s| == 1 || s[0] != '0'
  {
    if n < 10 then [DigitChar(n)]
    else
      var s := DecimalString(n / 10) + [DigitChar(n % 10)];
      assert s[..|s| - 1] == DecimalString(n / 10);
      s
  }

  /**
   * `re.fullmatch(r"\s*(\d+)\s*", value)` followed by `int()` of the digits:
   * the whole number a value spells, if it spells one.
   */
  function WholeNumber(value: string): (n: Option<nat>)
  {
    var t := Strip(value);
    if t != [] && AllDigits(t) then Some(DigitsValue(t)) else None
  }

  /** The pattern itself: optional whitespace, one or more digits, optional whitespace. */
  ghost predicate MatchesWholeNumber(value: string, n: nat)
  {
    exists i, j :: 0 <= i < j <= |value|
      && AllSpace(value[..i]) && AllDigits(value[i..j]) && AllSpace(value[j..])
      && DigitsValue(value[i..j]) == n
  }

  lemma PatternOfWholeNumber(value: string, n: nat)
    requires WholeNumber(value) == Some(n)
    ensures MatchesWholeNumber(value, n)
  {
    var i, j := StripSplit(value);
    assert AllDigits(value[i..j]) && DigitsValue(value[i..j]) == n;
  }

  lemma WholeNumberOfPattern(value: string, n: nat, i: nat, j: nat)
    requires i < j <= |value|
    requires AllSpace(value[..i]) && AllDigits(value[i..j]) && AllSpace(value[j..])
    requires DigitsValue(value[i..j]) == n
    ensures WholeNumber(value) == Some(n)
  {
    assert value == value[..i] + value[i..j] + value[j..];
    StripExact(value[..i], value[i..j], value[j..]);
  }

  /** `WholeNumber` accepts exactly the values the pattern matches, with the value of the matched digits. */
  lemma WholeNumberIsPattern(value: string, n: nat)
    ensures WholeNumber(value) == Some(n) <==> MatchesWholeNumber(value, n)
  {
    if WholeNumber(value) == Some(n) {
      PatternOfWholeNumber(value, n);
    }
    if MatchesWholeNumber(value, n) {
      var i, j :| 0 <= i < j <= |value|
        && AllSpace(value[..i]) && AllDigits(value[i..j]) && AllSpace(value[j..])
        && DigitsValue(value[i..j]) == n;
      WholeNumberOfPattern(value, n, i, j);
    }
  }

  /** A decimal string has no whitespace to strip. */
  lemma StripOfDecimal(n: nat)
    ensures Strip(DecimalString(n)) == DecimalString(n)
  {
    var s := DecimalString(n);
    assert IsDigit(s[0]) && IsDigit(s[|s| - 1]);
    StripExact([], s, []);
    assert [] + s + [] == s;
  }

  /** The suggested number reads back as the number it was made from. */
  lemma WholeNumberOfDecimal(n: nat)
    ensures WholeNumber(DecimalString(n)) == Some(n)
  {
    StripOfDecimal(n);
  }

  /** The whole number of a column entry; NULL counts as no number. */
  function EntryNumber(entry: Option<string>): Option<nat>
  {
    if entry.None? then None else WholeNumber(entry.value)
  }

  /** The whole numbers of the column, entry by entry. */
  function Numbers(entries: seq<Option<string>>): (ns: seq<Option<nat>>)
    ensures |ns| == |entries|
  {
    if entries == [] then []
    else Numbers(entries[..|entries| - 1]) + [EntryNumber(entries[|entries| - 1])]
  }

  lemma {:induction false} NumbersAt(entries: seq<Option<string>>, k: nat)
    requires k < |entries|
    ensures Numbers(entries)[k] == EntryNumber(entries[k])
  {
    var rest := entries[..|entries| - 1];
    if k < |rest| {
      NumbersAt(rest, k);
      assert rest[k] == entries[k];
    }
  }

  /** The largest of the numbers present, 0 when there is none. */
  function MaxNumber(ns: seq<Option<nat>>): (m: nat)
    ensures forall k :: 0 <= k < |ns| && ns[k].Some? ==> ns[k].value <= m
    ensures m == 0 || Some(m) in ns
  {
    if ns == [] then 0
    else
      var rest := ns[..|ns| - 1];
      var m := MaxNumber(rest);
      var last := ns[|ns| - 1];
      assert forall k :: 0 <= k < |rest| ==> ns[k] == rest[k];
      if last.Some? && last.value > m then last.value else m
  }

  lemma MaxNumberSnoc(ns: seq<Option<nat>>, x: Option<nat>)
    ensures MaxNumber(ns + [x]) == if x.Some? && x.value > MaxNumber(ns) then x.value else MaxNumber(ns)
  {
    assert (ns + [x])[..|ns|] == ns;
  }

  /** One more entry of the column: its number, if larger, becomes the maximum. */
  lemma PrefixStep(entries: seq<Option<string>>, i: nat)
    requires i < |entries|
    ensures var before, x := MaxNumber(Numbers(entries[..i])), EntryNumber(entries[i]);
      MaxNumber(Numbers(entries[..i + 1])) == if x.Some? && x.value > before then x.value else before
  {
    assert entries[..i + 1] == entries[..i] + [entries[i]];
    NumbersSnoc(entries[..i], entries[i]);
    MaxNumberSnoc(Numbers(entries[..i]), EntryNumber(entries[i]));
  }

  /** The largest whole-number entry of the column, 0 when there is none. */
  function MaxWholeNumber(entries: seq<Option<string>>): nat
  {
    MaxNumber(Numbers(entries))
  }

  /**
   * `_next_project_number`: one more than the largest whole-number entry,
   * as a decimal string.  NULLs and entries such as "V2" are skipped.
   */
  method NextProjectNumber(entries: seq<Option<string>>) returns (next: string)
    ensures next == DecimalString(MaxWholeNumber(entries) + 1)
  {
    var maxNum := 0;
    for i := 0 to |entries|
      invariant maxNum == MaxNumber(Numbers(entries[..i]))
    {
      PrefixStep(entries, i);
      var val := entries[i];
      if val.None? {
        continue;
      }
      var m := WholeNumber(val.value);
      if m.Some? {
        var n := m.value;
        if n > maxNum {
          maxNum := n;
        }
      }
    }
    assert entries[..|entries|] == entries;
    next := DecimalString(if maxNum >= 0 then maxNum + 1 else 1);
  }

  /**
   * The suggestion is strictly greater than every whole-number entry, is the
   * least positive such number, and is "1" on an empty history.
   */
  lemma NextNumberExceedsAll(entries: seq<Option<string>>, k: nat)
    requires k < |entries| && EntryNumber(entries[k]).Some?
    ensures EntryNumber(entries[k]).value < MaxWholeNumber(entries) + 1
  {
    NumbersAt(entries, k);
  }

  lemma NextNumberIsLeast(entries: seq<Option<string>>, n: nat)
    requires n > 0
    requires forall k :: 0 <= k < |entries| && EntryNumber(entries[k]).Some? ==> EntryNumber(entries[k]).value < n
    ensures MaxWholeNumber(entries) + 1 <= n
    ensures MaxWholeNumber(entries) == 0 || exists k :: 0 <= k < |entries| && EntryNumber(entries[k]) == Some(MaxWholeNumber(entries))
    ensures entries == [] ==> DecimalString(MaxWholeNumber(entries) + 1) == "1"
  {
    var ns := Numbers(entries);
    if MaxWholeNumber(entries) != 0 {
      var k :| 0 <= k < |ns| && ns[k] == Some(MaxWholeNumber(entries));
      NumbersAt(entries, k);
    }
  }

  /** The suggested number is never already taken. */
  lemma NextNumberIsFree(entries: seq<Option<string>>)
    ensures !ProjectNumberExists(entries, DecimalString(MaxWholeNumber(entries) + 1))
  {
    var next := DecimalString(MaxWholeNumber(entries) + 1);
    if ProjectNumberExists(entries, next) {
      var k :| 0 <= k < |entries| && entries[k] == Some(next);
      WholeNumberOfDecimal(MaxWholeNumber(entries) + 1);
      NextNumberExceedsAll(entries, k);
      assert false;
    }
  }

  /** `_exists_projectnummer`: an exact, case-sensitive match; a NULL entry matches nothing. */
  function ProjectNumberExists(entries: seq<Option<string>>, number: string): (found: bool)
    ensures found <==> exists k :: 0 <= k < |entries| && entries[k] == Some(number)
  {
    Some(number) in entries
  }

  /** No project number occurs twice. */
  ghost predicate DistinctNumbers(entries: seq<Option<string>>)
  {
    forall i, j :: 0 <= i < j < |entries| && entries[i].Some? ==> entries[i] != entries[j]
  }

  /** The wizard's fields as typed. */
  datatype ProjectForm = ProjectForm(
    bureau: string, number: string, linked: string, client: string, name: string,
    city: string, postcode: string, street: string, status: string)

  /** The row the wizard inserts. */
  datatype ProjectRecord = ProjectRecord(
    bureau: string, number: string, linked: string, client: string, name: string,
    address: string, status: string)

  datatype ProjectSave = NumberMissing | NumberTaken(number: string) | Insert(record: ProjectRecord)

  /**
   * The address the wizard means to store, given the trimmed fields:
   * "street, postcode city", where the comma only separates two non-empty
   * parts and the space only separates a non-empty postcode and city.
   */
  function AddressOf(street: string, postcode: string, city: string): string
  {
    var locality := if postcode != [] && city != [] then postcode + " " + city else postcode + city;
    if street != [] && locality != [] then street + ", " + locality else street + locality
  }

  /**
   * The wizard's address: the trimmed street, then `" ".join([pc, stad]).strip()`
   * when either is present, with the empty parts dropped and the rest
   * joined by ", ".
   */
  function ComposeAddress(street: string, postcode: string, city: string): (address: string)
    ensures address == AddressOf(Strip(street), Strip(postcode), Strip(city))
  {
    var straat, pc, stad := Strip(street), Strip(postcode), Strip(city);
    StripEnds(postcode);
    StripEnds(city);
    var parts := (if straat != [] then [straat] else [])
      + (if pc != [] || stad != [] then [Locality(pc, stad)] else []);
    JoinAddressParts(straat, Locality(pc, stad));
    if parts != [] then JoinWith(", ", NonEmpty(parts)) else (if stad != [] then stad else [])
  }

  /** An address is empty exactly when street, postcode and city are all blank. */
  lemma AddressEmptyIffBlank(street: string, postcode: string, city: string)
    ensures ComposeAddress(street, postcode, city) == [] <==> Strip(street) == [] && Strip(postcode) == [] && Strip(city) == []
  {
  }

  /** `[p for p in parts if p]`. */
  function NonEmpty(parts: seq<string>): (r: seq<string>)
    ensures forall p | p in r :: p != [] && p in parts
    ensures forall p | p in parts && p != [] :: p in r
  {
    if parts == [] then []
    else (if parts[0] != [] then [parts[0]] else []) + NonEmpty(parts[1..])
  }

  /** `", ".join` of the non-empty parts, for the lists the wizard builds. */
  lemma JoinAddressParts(straat: string, loc: string)
    ensures var parts := (if straat != [] then [straat] else []) + (if loc != [] then [loc] else []);
      JoinWith(", ", NonEmpty(parts)) == if straat != [] && loc != [] then straat + ", " + loc else straat + loc
  {
    if straat != [] && loc != [] {
      var parts := [straat, loc];
      assert parts[1..] == [loc];
      assert NonEmpty([loc]) == [loc] by { assert [loc][1..] == []; }
      assert NonEmpty(parts) == [straat, loc];
      assert JoinWith(", ", [straat, loc])[..] == straat + ", " + JoinWith(", ", [loc]) by { assert [straat, loc][1..] == [loc]; }
    } else if straat != [] {
      assert [straat][1..] == [];
      assert straat + loc == straat;
    } else if loc != [] {
      assert [loc][1..] == [];
      assert [] + [loc] == [loc];
    }
  }

  /** `" ".join([pc, stad]).strip()` for trimmed fields: the space only stays between two non-empty parts. */
  function Locality(pc: string, stad: string): (loc: string)
    requires Trimmed(pc) && Trimmed(stad)
    ensures loc == if pc != [] && stad != [] then pc + " " + stad else pc + stad
  {
    assert JoinWith(" ", [pc, stad]) == pc + " " + stad by {
      assert [pc, stad][1..] == [stad];
    }
    StripSpaced(pc, stad);
    Strip(JoinWith(" ", [pc, stad]))
  }

  /**
   * The wizard's `save`: an empty number is refused, then a number that is
   * already taken; only then is the record composed.  The name, client and
   * other fields are not required.
   */
  function SaveNewProject(form: ProjectForm, entries: seq<Option<string>>): (r: ProjectSave)
    ensures r.NumberMissing? <==> Strip(form.number) == []
    ensures r.NumberTaken? <==> Strip(form.number) != [] && ProjectNumberExists(entries, Strip(form.number))
    ensures r.Insert? ==>
      && r.record.number == Strip(form.number) != []
      && !ProjectNumberExists(entries, r.record.number)
      && r.record.address == ComposeAddress(form.street, form.postcode, form.city)
    ensures r.Insert? ==>
      && r.record.bureau == Strip(form.bureau) && r.record.linked == Strip(form.linked)
      && r.record.client == Strip(form.client) && r.record.name == Strip(form.name)
      && r.record.status == Strip(form.status)
  {
    var number := Strip(form.number);
    if number == [] then NumberMissing
    else if ProjectNumberExists(entries, number) then NumberTaken(number)
    else
      Insert(ProjectRecord(
        Strip(form.bureau), number, Strip(form.linked), Strip(form.client), Strip(form.name),
        ComposeAddress(form.street, form.postcode, form.city), Strip(form.status)))
  }

  /** Saving through the wizard keeps the project numbers distinct. */
  lemma SaveKeepsNumbersDistinct(form: ProjectForm, entries: seq<Option<string>>)
    requires DistinctNumbers(entries)
    requires SaveNewProject(form, entries).Insert?
    ensures DistinctNumbers(entries + [Some(SaveNewProject(form, entries).record.number)])
  {
    var number := SaveNewProject(form, entries).record.number;
    var after := entries + [Some(number)];
    forall i, j | 0 <= i < j < |after| && after[i].Some?
      ensures after[i] != after[j]
    {
      if j == |entries| {
        assert after[i] == entries[i];
      } else {
        assert after[i] == entries[i] && after[j] == entries[j];
      }
    }
  }

  /** Left as suggested, the wizard's number passes both checks of the save. */
  lemma SuggestedNumberIsAccepted(form: ProjectForm, entries: seq<Option<string>>)
    requires form.number == DecimalString(MaxWholeNumber(entries) + 1)
    ensures SaveNewProject(form, entries).Insert?
  {
    StripOfDecimal(MaxWholeNumber(entries) + 1);
    NextNumberIsFree(entries);
  }

  lemma WholeNumberOfDigit(c: char)
    requires IsDigit(c)
    ensures WholeNumber([c]) == Some(DigitValue(c))
  {
    StripExact([], [c], []);
    assert [] + [c] + [] == [c];
    assert [c][..0] == [];
    assert AllDigits([c]);
    assert DigitsValue([c]) == DigitsValue([]) * 10 + DigitValue(c);
  }

  lemma NotWholeNumber(c: char, d: char)
    requires !IsDigit(c) && !IsSpace(c) && !IsSpace(d)
    ensures WholeNumber([c, d]) == None
  {
    StripExact([], [c, d], []);
    assert [] + [c, d] + [] == [c, d];
  }

  /** Appending an entry appends its number. */
  lemma NumbersSnoc(entries: seq<Option<string>>, e: Option<string>)
    ensures Numbers(entries + [e]) == Numbers(entries) + [EntryNumber(e)]
  {
    assert (entries + [e])[..|entries|] == entries;
  }

  lemma ExampleNumbers()
    ensures Numbers([Some("3"), Some("7"), Some("V2")]) == [Some(3), Some(7), None]
  {
    assert EntryNumber(Some("3")) == Some(3) by { WholeNumberOfDigit('3'); }
    assert EntryNumber(Some("7")) == Some(7) by { WholeNumberOfDigit('7'); }
    assert EntryNumber(Some("V2")) == None by { NotWholeNumber('V', '2'); }
    NumbersSnoc([], Some("3"));
    NumbersSnoc([Some("3")], Some("7"));
    NumbersSnoc([Some("3"), Some("7")], Some("V2"));
    assert [] + [Some("3")] == [Some("3")];
    assert [Some("3")] + [Some("7")] == [Some("3"), Some("7")];
    assert [Some("3"), Some("7")] + [Some("V2")] == [Some("3"), Some("7"), Some("V2")];
  }

  lemma ExampleMaximum()
    ensures MaxNumber([Some(3), Some(7), None]) == 7
  {
    var ns := [Some(3), Some(7), None];
    assert ns[..2] == [Some(3), Some(7)];
    assert ns[..2][..1] == [Some(3)];
    assert [Some(3)][..0] == [];
  }

  /** Numbers "3", "7" and "V2" on file: the suggestion is "8". */
  lemma NextNumberExample()
    ensures DecimalString(MaxWholeNumber([Some("3"), Some("7"), Some("V2")]) + 1) == "8"
  {
    ExampleNumbers();
    ExampleMaximum();
    assert DecimalString(8) == ['8'];
  }
}
