/**
 * The Belgian national registry number (rijksregisternummer) as the person
 * form handles it: five digit groups YY.MM.DD-SSS.CC, read from the stored
 * text by `parse_rrn` and written back from the five entry fields.  No date,
 * serial or checksum validation is done; this is a formatting codec.
 */
module NationalId {
  import opened Text

  /** The five groups, 2-2-2-3-2 digits wide when complete. */
  datatype Groups = Groups(year: string, month: string, day: string, serial: string, check: string)

  const EmptyGroups: Groups := Groups("", "", "", "", "")

  /** Python's `s[i:j]` for `0 <= i <= j`: both bounds are clamped to the length. */
  function Slice(s: string, i: nat, j: nat): (r: string)
    requires i <= j
    ensures |r| == Min(j, |s|) - Min(i, |s|)
    ensures |s| >= j ==> r == s[i..j]
    ensures i <= |s| <= j ==> r == s[i..]
    ensures |s| <= i ==> r == []
    ensures AllDigits(s) ==> AllDigits(r)
  {
    s[Min(i, |s|)..Min(j, |s|)]
  }

  /** The groups run together. */
  function Joined(g: Groups): string
  {
    g.year + g.month + g.day + g.serial + g.check
  }

  /** Every group is made of digits and no wider than its field. */
  predicate WithinWidths(g: Groups)
  {
    && |g.year| <= 2 && |g.month| <= 2 && |g.day| <= 2 && |g.serial| <= 3 && |g.check| <= 2
    && AllDigits(g.year) && AllDigits(g.month) && AllDigits(g.day) && AllDigits(g.serial) && AllDigits(g.check)
  }

  /** Every group is exactly as wide as its field: a complete number. */
  predicate FullWidths(g: Groups)
  {
    && WithinWidths(g)
    && |g.year| == 2 && |g.month| == 2 && |g.day| == 2 && |g.serial| == 3 && |g.check| == 2
  }

  /**
   * `parse_rrn`: keep the digits and cut them at positions 2, 4, 6, 9 and 11.
   * Missing digits give shorter or empty groups; digits past the eleventh are
   * dropped.
   */
  function ParseRrn(text: string): (g: Groups)
    ensures WithinWidths(g)
    ensures var digits := OnlyDigits(text); Joined(g) == digits[..Min(11, |digits|)]
    ensures var n := |OnlyDigits(text)|;
      && |g.year| == Min(2, n)
      && |g.year + g.month| == Min(4, n)
      && |g.year + g.month + g.day| == Min(6, n)
      && |g.year + g.month + g.day + g.serial| == Min(9, n)
  {
    var digits := OnlyDigits(text);
    CutPositions(digits);
    Groups(Slice(digits, 0, 2), Slice(digits, 2, 4), Slice(digits, 4, 6), Slice(digits, 6, 9), Slice(digits, 9, 11))
  }

  /** The five cuts of `parse_rrn` together are the first eleven characters. */
  lemma CutPositions(s: string)
    ensures Slice(s, 0, 2) + Slice(s, 2, 4) + Slice(s, 4, 6) + Slice(s, 6, 9) + Slice(s, 9, 11) == s[..Min(11, |s|)]
  {
    var c2, c4, c6, c9, m := Min(2, |s|), Min(4, |s|), Min(6, |s|), Min(9, |s|), Min(11, |s|);
    assert c2 <= c4 <= c6 <= c9 <= m <= |s|;
    assert s[..c4] == s[..c2] + s[c2..c4];
    assert s[..c6] == s[..c4] + s[c4..c6];
    assert s[..c9] == s[..c6] + s[c6..c9];
    assert s[..m] == s[..c9] + s[c9..m];
  }

  /** `r` is as many leading digits of `s` as fit in `width`: `only_digits(s)[:width]`. */
  predicate FieldCut(s: string, width: nat, r: string)
  {
    |r| == Min(width, |OnlyDigits(s)|) && r == OnlyDigits(s)[..|r|]
  }

  /** The digits of one entry field, cut to the field's width. */
  function Truncate(s: string, width: nat): (r: string)
    ensures |r| <= width && AllDigits(r)
    ensures FieldCut(s, width, r)
    ensures AllDigits(s) && |s| <= width ==> r == s
  {
    var digits := OnlyDigits(s);
    assert AllDigits(s) ==> digits == s by {
      if AllDigits(s) { OnlyDigitsOfDigits(s); }
    }
    digits[..Min(width, |digits|)]
  }

  /** The five entry fields as the save reads them: digits only, each cut to its width. */
  function Truncated(g: Groups): (t: Groups)
    ensures WithinWidths(t)
    ensures && FieldCut(g.year, 2, t.year) && FieldCut(g.month, 2, t.month) && FieldCut(g.day, 2, t.day)
            && FieldCut(g.serial, 3, t.serial) && FieldCut(g.check, 2, t.check)
    ensures WithinWidths(g) ==> t == g
  {
    Groups(Truncate(g.year, 2), Truncate(g.month, 2), Truncate(g.day, 2), Truncate(g.serial, 3), Truncate(g.check, 2))
  }

  /** The rendering "a.b.c-d.e": the groups with four separators that carry no digit. */
  function Mask(t: Groups): (m: string)
    ensures |m| == |Joined(t)| + 4
    ensures OnlyDigits(m) == OnlyDigits(Joined(t))
  {
    MaskDigits(t.year, t.month, t.day, t.serial, t.check);
    t.year + "." + t.month + "." + t.day + "-" + t.serial + "." + t.check
  }

  /**
   * The number stored on save: "" when every field is empty ("no number on
   * file"), otherwise "a.b.c-d.e" even when only some fields are filled.
   */
  function ComposeRrn(g: Groups): (r: string)
    ensures r == [] <==> Truncated(g) == EmptyGroups
    ensures r != [] ==> var t := Truncated(g);
      r == t.year + "." + t.month + "." + t.day + "-" + t.serial + "." + t.check
    ensures r != [] ==> OnlyDigits(r) == Joined(Truncated(g)) && |r| == |Joined(Truncated(g))| + 4
  {
    var t := Truncated(g);
    if t == EmptyGroups then ""
    else
      OnlyDigitsOfDigits(Joined(t));
      Mask(t)
  }

  /** The separators of the mask contribute no digit. */
  lemma MaskDigits(a: string, b: string, c: string, d: string, e: string)
    ensures OnlyDigits(a + "." + b + "." + c + "-" + d + "." + e) == OnlyDigits(a + b + c + d + e)
  {
    var p1 := a + "." + b;
    SeparatorDigits(a, '.', b);
    var p2 := p1 + "." + c;
    SeparatorDigits(p1, '.', c);
    var p3 := p2 + "-" + d;
    SeparatorDigits(p2, '-', d);
    SeparatorDigits(p3, '.', e);
    OnlyDigitsAppend(a, b);
    OnlyDigitsAppend(a + b, c);
    OnlyDigitsAppend(a + b + c, d);
    OnlyDigitsAppend(a + b + c + d, e);
  }

  /** A short input is cut at the fixed positions, not spread over the groups. */
  lemma ShortParseExample()
    ensures ParseRrn("12345") == Groups("12", "34", "5", "", "")
  {
    var d := "12345";
    assert OnlyDigits(d) == d by { OnlyDigitsOfDigits(d); }
  }

  /** A partly filled form is saved as a partial mask, not dropped. */
  lemma PartialMaskExample()
    ensures ComposeRrn(Groups("85", "", "", "", "")) == "85..-."
  {
    var g := Groups("85", "", "", "", "");
    assert IsDigit("85"[0]) && IsDigit("85"[1]);
    assert WithinWidths(g);
    assert Truncated(g) == g;
    assert "85" + "." + "" + "." + "" + "-" + "" + "." + "" == "85..-.";
  }

  /** Cutting a prefix of at least eleven digits, or all of them, at positions up to 11 gives the same groups. */
  lemma SlicePrefix(digits: string, m: nat, i: nat, j: nat)
    requires m == Min(11, |digits|)
    requires i <= j <= 11
    ensures Slice(digits[..m], i, j) == Slice(digits, i, j)
  {
    assert Min(i, m) == Min(i, |digits|) && Min(j, m) == Min(j, |digits|);
  }

  /**
   * Composing what was parsed and parsing it again gives the same groups:
   * a number survives being loaded into the form and saved back.
   */
  lemma ParseComposeParse(text: string)
    ensures ParseRrn(ComposeRrn(ParseRrn(text))) == ParseRrn(text)
  {
    var digits := OnlyDigits(text);
    var m := Min(11, |digits|);
    var g := ParseRrn(text);
    var r := ComposeRrn(g);
    if r == [] {
      assert Joined(g) == [];
      assert digits == [];
    } else {
      assert OnlyDigits(r) == digits[..m];
      SlicePrefix(digits, m, 0, 2);
      SlicePrefix(digits, m, 2, 4);
      SlicePrefix(digits, m, 4, 6);
      SlicePrefix(digits, m, 6, 9);
      SlicePrefix(digits, m, 9, 11);
    }
  }

  /** Loading and saving a number twice changes nothing more than doing it once. */
  lemma ComposeParseIdempotent(text: string)
    ensures ComposeRrn(ParseRrn(ComposeRrn(ParseRrn(text)))) == ComposeRrn(ParseRrn(text))
  {
    ParseComposeParse(text);
  }

  /** An input with at least eleven digits is shown as the canonical mask of its first eleven. */
  lemma ComposeParseCanonical(text: string)
    requires |OnlyDigits(text)| >= 11
    ensures var d := OnlyDigits(text);
      ComposeRrn(ParseRrn(text)) == d[0..2] + "." + d[2..4] + "." + d[4..6] + "-" + d[6..9] + "." + d[9..11]
  {
    var g := ParseRrn(text);
    assert g.year != [];
  }

  /** A complete number read back from its mask gives back its groups. */
  lemma ParseComposeFull(g: Groups)
    requires FullWidths(g)
    ensures ParseRrn(ComposeRrn(g)) == g
  {
    var r := ComposeRrn(g);
    assert g.year != [];
    var digits := Joined(g);
    assert OnlyDigits(r) == digits;
    assert |digits| == 11;
    assert digits[0..2] == g.year;
    assert digits[2..4] == g.month;
    assert digits[4..6] == g.day;
    assert digits[6..9] == g.serial;
    assert digits[9..11] == g.check;
  }
}
