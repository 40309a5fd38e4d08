/**
 * Saving a person contact (`save_person`): required names, the exact and
 * near-duplicate name warnings, and the record that is written.
 *
 * Similarity is `difflib.SequenceMatcher(None, stored name, new full name).ratio()`,
 * the order `get_close_matches` uses;
 * its algorithm is not part of this model and enters as a parameter.
 */
module Persons {
  import opened Text
  import opened Wrappers
  import CountryTable
  import NationalId

  /** The `cutoff` given to `get_close_matches`. */
  const Cutoff: real := 0.8

  /**
   * `f"{first} {last}".strip()`: for trimmed parts, "first last" when both are
   * present, otherwise the one that is.
   */
  function FullName(first: string, last: string): (full: string)
    ensures Trimmed(first) && Trimmed(last) ==>
      full == if first != [] && last != [] then first + " " + last else first + last
  {
    StripSpaced(first, last);
    Strip(first + " " + last)
  }

  /** The names of the stored persons, as the duplicate check renders them. */
  function ExistingNames(rows: seq<(string, string)>): (names: seq<string>)
    ensures |names| == |rows|
  {
    if rows == [] then []
    else ExistingNames(rows[..|rows| - 1]) + [FullName(rows[|rows| - 1].0, rows[|rows| - 1].1)]
  }

  lemma {:induction false} ExistingNamesAt(rows: seq<(string, string)>, k: nat)
    requires k < |rows|
    ensures ExistingNames(rows)[k] == FullName(rows[k].0, rows[k].1)
  {
    var rest := rows[..|rows| - 1];
    if k < |rest| {
      ExistingNamesAt(rest, k);
      assert rest[k] == rows[k];
    }
  }

  /** Python's ordering of strings: lexicographic by code point, a proper prefix first. */
  predicate StrLe(a: string, b: string)
  {
    if a == [] then true
    else if b == [] then false
    else if a[0] != b[0] then a[0] < b[0]
    else StrLe(a[1..], b[1..])
  }

  lemma {:induction false} StrLeReflexive(a: string)
    ensures StrLe(a, a)
  {
    if a != [] {
      StrLeReflexive(a[1..]);
    }
  }

  lemma {:induction false} StrLeTotal(a: string, b: string)
    ensures StrLe(a, b) || StrLe(b, a)
  {
    if a != [] && b != [] && a[0] == b[0] {
      StrLeTotal(a[1..], b[1..]);
    }
  }

  lemma {:induction false} StrLeTransitive(a: string, b: string, c: string)
    requires StrLe(a, b) && StrLe(b, c)
    ensures StrLe(a, c)
  {
    if a != [] && b != [] && c != [] && a[0] == b[0] && b[0] == c[0] {
      StrLeTransitive(a[1..], b[1..], c[1..]);
    }
  }

  lemma {:induction false} StrLeAntisymmetric(a: string, b: string)
    requires StrLe(a, b) && StrLe(b, a)
    ensures a == b
  {
    if a != [] && b != [] {
      StrLeAntisymmetric(a[1..], b[1..]);
      assert a == [a[0]] + a[1..] && b == [b[0]] + b[1..];
    }
  }

  /** `(s1, x1) <= (s2, x2)` on the (score, name) pairs `nlargest` compares. */
  predicate RankLe(s1: real, x1: string, s2: real, x2: string)
  {
    s1 < s2 || (s1 == s2 && StrLe(x1, x2))
  }

  lemma RankLeTotal(s1: real, x1: string, s2: real, x2: string)
    ensures RankLe(s1, x1, s2, x2) || RankLe(s2, x2, s1, x1)
  {
    StrLeTotal(x1, x2);
  }

  lemma RankLeTransitive(s1: real, x1: string, s2: real, x2: string, s3: real, x3: string)
    requires RankLe(s1, x1, s2, x2) && RankLe(s2, x2, s3, x3)
    ensures RankLe(s1, x1, s3, x3)
  {
    if s1 == s2 && s2 == s3 {
      StrLeTransitive(x1, x2, x3);
    }
  }

  /**
   * `get_close_matches(word, names, n=1, cutoff=0.8)`: among the names whose
   * similarity reaches the cutoff, the greatest by (score, name).
   */
  function BestCloseMatch(word: string, names: seq<string>, similarity: (string, string) -> real): (best: Option<string>)
    ensures best.None? <==> forall k :: 0 <= k < |names| ==> similarity(names[k], word) < Cutoff
    ensures best.Some? ==> best.value in names && similarity(best.value, word) >= Cutoff
    ensures best.Some? ==> forall k :: 0 <= k < |names| && similarity(names[k], word) >= Cutoff ==>
      RankLe(similarity(names[k], word), names[k], similarity(best.value, word), best.value)
  {
    if names == [] then None
    else
      var rest := names[..|names| - 1];
      var before := BestCloseMatch(word, rest, similarity);
      var x := names[|names| - 1];
      var s := similarity(x, word);
      assert forall k :: 0 <= k < |rest| ==> names[k] == rest[k];
      if s < Cutoff then before
      else if before.None? then
        StrLeReflexive(x);
        Some(x)
      else
        var b := before.value;
        var sb := similarity(b, word);
        if RankLe(sb, b, s, x) then
          StrLeReflexive(x);
          assert forall k :: 0 <= k < |rest| && similarity(rest[k], word) >= Cutoff ==>
            RankLe(similarity(rest[k], word), rest[k], s, x) by {
            forall k | 0 <= k < |rest| && similarity(rest[k], word) >= Cutoff
              ensures RankLe(similarity(rest[k], word), rest[k], s, x)
            {
              RankLeTransitive(similarity(rest[k], word), rest[k], sb, b, s, x);
            }
          }
          Some(x)
        else
          RankLeTotal(sb, b, s, x);
          before
  }

  /** The warning the save raises before writing a new person. */
  datatype Prompt = NoPrompt | AlreadyExists(name: string) | LooksLike(name: string, closest: string)

  /**
   * The duplicate check for a new person: an exact match of the full name
   * warns "already exists" and skips the fuzzy search; otherwise the closest
   * name at or above the cutoff gives a "looks like" warning.
   */
  function DuplicatePrompt(full: string, names: seq<string>, similarity: (string, string) -> real): (p: Prompt)
    ensures p.AlreadyExists? <==> full in names
    ensures p.NoPrompt? <==> full !in names && forall k :: 0 <= k < |names| ==> similarity(names[k], full) < Cutoff
    ensures p.LooksLike? ==>
      && p.name == full && p.closest in names && p.closest != full
      && similarity(p.closest, full) >= Cutoff
      && forall k :: 0 <= k < |names| && similarity(names[k], full) >= Cutoff ==>
           RankLe(similarity(names[k], full), names[k], similarity(p.closest, full), p.closest)
  {
    if full in names then AlreadyExists(full)
    else
      match BestCloseMatch(full, names, similarity)
      case None => NoPrompt
      case Some(closest) => LooksLike(full, closest)
  }

  /** The person form's fields that the save reads and checks. */
  datatype PersonForm = PersonForm(
    first: string, last: string, rrn: NationalId.Groups,
    gsmLabel: string, gsmNumber: string, telLabel: string, telNumber: string)

  /** The fields of the written row that the save derives from the form. */
  datatype PersonRecord = PersonRecord(
    first: string, last: string, nationalId: string,
    gsmCode: string, gsmNumber: string, telCode: string, telNumber: string)

  /**
   * The outcome of `save_person`.  `Update` rewrites the row keyed by the
   * first and last name the edited person had when the form opened.
   */
  datatype PersonSave =
    | NameMissing
    | Declined(prompt: Prompt)
    | Insert(record: PersonRecord, prompt: Prompt)
    | Update(key: (string, string), record: PersonRecord)

  function Record(form: PersonForm): (r: PersonRecord)
    ensures r.first == Strip(form.first) && r.last == Strip(form.last)
    ensures r.nationalId == NationalId.ComposeRrn(form.rrn)
    ensures r.gsmNumber == OnlyDigits(form.gsmNumber) && r.telNumber == OnlyDigits(form.telNumber)
    ensures r.gsmCode == CountryTable.LabelToCode(form.gsmLabel) && r.telCode == CountryTable.LabelToCode(form.telLabel)
    ensures OnlyDigits(r.gsmNumber) == r.gsmNumber && OnlyDigits(r.telNumber) == r.telNumber
    ensures ' ' !in r.gsmCode && ' ' !in r.telCode
  {
    var gsm, tel := OnlyDigits(form.gsmNumber), OnlyDigits(form.telNumber);
    OnlyDigitsOfDigits(gsm);
    OnlyDigitsOfDigits(tel);
    PersonRecord(
      Strip(form.first), Strip(form.last), NationalId.ComposeRrn(form.rrn),
      CountryTable.LabelToCode(form.gsmLabel), gsm,
      CountryTable.LabelToCode(form.telLabel), tel)
  }

  /** The warning a new person with this form would raise. */
  function NewPersonPrompt(form: PersonForm, rows: seq<(string, string)>, similarity: (string, string) -> real): Prompt
  {
    DuplicatePrompt(FullName(Strip(form.first), Strip(form.last)), ExistingNames(rows), similarity)
  }

  /**
   * `save_person`.  `editing` is the name key of the person being edited,
   * `None` for a new person; `rows` are the stored persons' first and last
   * names; `confirm` is the answer the user gives to a warning.
   */
  function SavePerson(
    form: PersonForm, editing: Option<(string, string)>, rows: seq<(string, string)>,
    similarity: (string, string) -> real, confirm: bool): (r: PersonSave)
    ensures r.NameMissing? <==> Strip(form.first) == [] || Strip(form.last) == []
    ensures editing.Some? && !r.NameMissing? ==> r == Update(editing.value, Record(form))
    ensures r.Update? ==> editing.Some?
    ensures r.Declined? <==> !r.NameMissing? && editing.None? && !confirm && !NewPersonPrompt(form, rows, similarity).NoPrompt?
    ensures r.Declined? ==> r.prompt == NewPersonPrompt(form, rows, similarity)
    ensures r.Insert? ==>
      && editing.None? && r.record == Record(form)
      && r.prompt == NewPersonPrompt(form, rows, similarity)
      && (r.prompt.NoPrompt? || confirm)
  {
    var first, last := Strip(form.first), Strip(form.last);
    if first == [] || last == [] then NameMissing
    else if editing.Some? then Update(editing.value, Record(form))
    else
      var prompt := NewPersonPrompt(form, rows, similarity);
      if !prompt.NoPrompt? && !confirm then Declined(prompt)
      else Insert(Record(form), prompt)
  }

  /** A stored name equal to the new full name raises the exact-match warning, never the fuzzy one. */
  lemma ExactDuplicatePrompt(form: PersonForm, rows: seq<(string, string)>, similarity: (string, string) -> real, k: nat)
    requires k < |rows| && FullName(rows[k].0, rows[k].1) == FullName(Strip(form.first), Strip(form.last))
    ensures NewPersonPrompt(form, rows, similarity) == AlreadyExists(FullName(Strip(form.first), Strip(form.last)))
  {
    ExistingNamesAt(rows, k);
    assert ExistingNames(rows)[k] in ExistingNames(rows);
  }

  /** A warned-about new person is written only when the user confirms. */
  lemma WarningNeedsConfirmation(
    form: PersonForm, rows: seq<(string, string)>, similarity: (string, string) -> real, confirm: bool)
    requires Strip(form.first) != [] && Strip(form.last) != []
    requires !NewPersonPrompt(form, rows, similarity).NoPrompt?
    ensures SavePerson(form, None, rows, similarity, confirm).Insert? <==> confirm
    ensures !confirm ==> SavePerson(form, None, rows, similarity, confirm) == Declined(NewPersonPrompt(form, rows, similarity))
  {
  }

  /** No stored name equal or near enough: no warning. */
  lemma DistinctNameNoPrompt(form: PersonForm, rows: seq<(string, string)>, similarity: (string, string) -> real)
    requires forall k :: 0 <= k < |rows| ==>
      FullName(rows[k].0, rows[k].1) != FullName(Strip(form.first), Strip(form.last))
      && similarity(FullName(rows[k].0, rows[k].1), FullName(Strip(form.first), Strip(form.last))) < Cutoff
    ensures NewPersonPrompt(form, rows, similarity) == NoPrompt
  {
    var names := ExistingNames(rows);
    var full := FullName(Strip(form.first), Strip(form.last));
    forall k | 0 <= k < |names|
      ensures names[k] != full && similarity(names[k], full) < Cutoff
    {
      ExistingNamesAt(rows, k);
    }
  }

  /** Without a warning, a new person is written whatever the answer would have been. */
  lemma UnwarnedPersonIsInserted(
    form: PersonForm, rows: seq<(string, string)>, similarity: (string, string) -> real, confirm: bool)
    requires Strip(form.first) != [] && Strip(form.last) != []
    requires NewPersonPrompt(form, rows, similarity) == NoPrompt
    ensures SavePerson(form, None, rows, similarity, confirm) == Insert(Record(form), NoPrompt)
  {
  }
}
