/**
 * The display formatter for phone numbers (`format_phone`).  A phone number
 * is stored as a country code such as "+32" plus its bare digits; the
 * formatter renders "<cc> (0) " followed by a first group (the area or mobile
 * prefix) and then groups of two digits.
 */
module Phone {
  import opened Text

  const DefaultCountryCode: string := "+32"

  /**
   * `[rest[i:i+2] for i in range(0, len(rest), 2)]`: consecutive pairs of
   * characters, the last one possibly a single character.
   */
  function Pairs(s: string): (groups: seq<string>)
    ensures Concat(groups) == s
    ensures groups == [] <==> s == []
    ensures forall i :: 0 <= i < |groups| ==> |groups[i]| == 2 || (i == |groups| - 1 && |groups[i]| == 1)
  {
    if |s| <= 2 then (if s == [] then [] else [s])
    else
      var rest := Pairs(s[2..]);
      var groups := [s[..2]] + rest;
      assert groups[1..] == rest;
      assert s == s[..2] + s[2..];
      groups
  }

  /** The country code that is used: an empty code means the default "+32". */
  function EffectiveCode(cc: string): (code: string)
    ensures cc == [] ==> code == DefaultCountryCode
    ensures cc != [] ==> code == cc
    ensures code != []
  {
    if cc == [] then DefaultCountryCode else cc
  }

  /** A Belgian number is read as a mobile number: at least 8 digits starting with 4, or the caller says so. */
  predicate LooksMobile(digits: string, mobileHint: bool)
  {
    (|digits| >= 8 && digits[0] == '4') || mobileHint
  }

  /**
   * `format_phone(cc, digits, mobile_hint)`.  With digits present and a code
   * that does not start with whitespace, every branch renders "<code> (0) "
   * followed by the digit groups separated by single spaces.
   */
  function FormatPhone(cc: string, number: string, mobileHint: bool): (r: string)
    ensures (cc == [] || !IsSpace(cc[0])) && OnlyDigits(number) != [] ==>
      var code := EffectiveCode(cc);
      r == code + " (0) " + JoinWith(" ", PhoneGroups(code, OnlyDigits(number), mobileHint))
  {
    var digits := OnlyDigits(number);
    var code := EffectiveCode(cc);
    if code == "+32" then
      assert code + " (0) " == "+32 (0) ";
      FormatBelgian(digits, mobileHint)
    else if code == "+31" then
      assert code + " (0) " == "+31 (0) ";
      assert FirstGroupWidth(code, digits, false) == FirstGroupWidth(code, digits, mobileHint);
      FormatDutch(digits)
    else
      assert FirstGroupWidth(code, digits, false) == FirstGroupWidth(code, digits, mobileHint);
      FormatGeneric(code, digits)
  }

  /**
   * The Belgian branch: a 3-digit mobile prefix or a 2-digit area code, then
   * pairs; `strip` removes nothing from a rendering with digits.
   */
  function FormatBelgian(digits: string, mobileHint: bool): (r: string)
    requires AllDigits(digits)
    ensures digits == [] ==> r == "+32 (0)"
    ensures digits != [] ==> r == "+32 (0) " + JoinWith(" ", PhoneGroups("+32", digits, mobileHint))
  {
    if digits == [] then "+32 (0)"
    else
      BelgianUnpadded(digits, mobileHint);
      Strip("+32 (0) " + BelgianPieces(digits, mobileHint))
  }

  /** The space-separated groups of a Belgian number. */
  function BelgianPieces(digits: string, mobileHint: bool): string
  {
    var width := if LooksMobile(digits, mobileHint) then 3 else 2;
    var first := digits[..Min(width, |digits|)];
    var pairs := Pairs(digits[Min(width, |digits|)..]);
    if first != [] then JoinWith(" ", [first] + pairs) else JoinWith(" ", pairs)
  }

  /** The Dutch branch: a 2-digit area code, then pairs. */
  function FormatDutch(digits: string): (r: string)
    requires AllDigits(digits)
    ensures digits == [] ==> r == "+31 (0)"
    ensures digits != [] ==> r == "+31 (0) " + JoinWith(" ", PhoneGroups("+31", digits, false))
  {
    if digits == [] then "+31 (0)"
    else
      var first := digits[..Min(2, |digits|)];
      var pairs := Pairs(digits[Min(2, |digits|)..]);
      if pairs != [] then "+31 (0) " + first + " " + JoinWith(" ", pairs) else "+31 (0) " + first
  }

  /** Any other country: every digit in pairs, and `strip` removes nothing when there are digits. */
  function FormatGeneric(code: string, digits: string): (r: string)
    requires AllDigits(digits)
    ensures code != [] && !IsSpace(code[0]) && code != "+32" && digits != [] ==>
      r == code + " (0) " + JoinWith(" ", PhoneGroups(code, digits, false))
  {
    GenericUnpadded(code, digits);
    Strip(code + " (0) " + JoinWith(" ", Pairs(digits)))
  }

  /** How many digits the first group takes: 3 for a Belgian mobile number, otherwise 2. */
  function FirstGroupWidth(code: string, digits: string, mobileHint: bool): nat
  {
    if code == "+32" && LooksMobile(digits, mobileHint) then 3 else 2
  }

  /**
   * The digit groups of a rendered number: together they are the digits, the
   * first has the first-group width (or fewer when the number is shorter),
   * every later one has two digits except possibly a last single digit.
   */
  ghost predicate WellGrouped(groups: seq<string>, digits: string, width: nat)
  {
    && |groups| > 0
    && Concat(groups) == digits
    && |groups[0]| == Min(width, |digits|)
    && forall i :: 1 <= i < |groups| ==> |groups[i]| == 2 || (i == |groups| - 1 && |groups[i]| == 1)
  }

  function PhoneGroups(code: string, digits: string, mobileHint: bool): seq<string>
  {
    var k := Min(FirstGroupWidth(code, digits, mobileHint), |digits|);
    [digits[..k]] + Pairs(digits[k..])
  }

  lemma {:induction false} PairsOfDigits(s: string)
    requires AllDigits(s)
    ensures forall g | g in Pairs(s) :: g != [] && AllDigits(g)
  {
    if |s| > 2 {
      assert AllDigits(s[2..]);
      PairsOfDigits(s[2..]);
    }
  }

  lemma PhoneGroupsWellGrouped(code: string, digits: string, mobileHint: bool)
    requires digits != [] && AllDigits(digits)
    ensures var groups := PhoneGroups(code, digits, mobileHint);
      && WellGrouped(groups, digits, FirstGroupWidth(code, digits, mobileHint))
      && forall g | g in groups :: g != [] && AllDigits(g)
  {
    var k := Min(FirstGroupWidth(code, digits, mobileHint), |digits|);
    var groups := PhoneGroups(code, digits, mobileHint);
    var pairs := Pairs(digits[k..]);
    assert groups[1..] == pairs;
    assert Concat(groups) == digits[..k] + Concat(pairs);
    assert digits == digits[..k] + digits[k..];
    assert AllDigits(digits[k..]);
    PairsOfDigits(digits[k..]);
  }

  /** The digits of "<code> (0) " and of "<code> (0)": those of the code, then the trunk 0. */
  lemma TrunkDigits(code: string)
    ensures OnlyDigits(code + " (0) ") == OnlyDigits(code) + "0"
    ensures OnlyDigits(code + " (0)") == OnlyDigits(code) + "0"
  {
    TrunkMarkerDigits();
    OnlyDigitsAppend(code, " (0) ");
    OnlyDigitsAppend(code, " (0)");
  }

  lemma TrunkMarkerDigits()
    ensures OnlyDigits(" (0) ") == "0"
    ensures OnlyDigits(" (0)") == "0"
  {
    assert OnlyDigits(")") == [] by { assert ")"[1..] == []; }
    assert OnlyDigits(") ") == [] by { assert ") "[1..] == " "; assert " "[1..] == []; }
    assert OnlyDigits("0)") == "0" by { assert "0)"[1..] == ")"; }
    assert OnlyDigits("0) ") == "0" by { assert "0) "[1..] == ") "; }
    assert " (0)"[1..] == "(0)" && "(0)"[1..] == "0)";
    assert " (0) "[1..] == "(0) " && "(0) "[1..] == "0) ";
  }

  /** The digits of a rendered number: those of the code, the trunk 0, then the groups run together. */
  lemma RenderedDigits(code: string, groups: seq<string>)
    requires forall g | g in groups :: AllDigits(g)
    ensures OnlyDigits(code + " (0) " + JoinWith(" ", groups)) == OnlyDigits(code) + "0" + Concat(groups)
  {
    TrunkDigits(code);
    JoinSpacesKeepsDigits(groups);
    OnlyDigitsAppend(code + " (0) ", JoinWith(" ", groups));
  }

  lemma BelgianUnpadded(digits: string, mobileHint: bool)
    requires digits != [] && AllDigits(digits)
    ensures Strip("+32 (0) " + BelgianPieces(digits, mobileHint)) == "+32 (0) " + JoinWith(" ", PhoneGroups("+32", digits, mobileHint))
  {
    var groups := PhoneGroups("+32", digits, mobileHint);
    BelgianPiecesAreGroups(digits, mobileHint);
    PhoneGroupsWellGrouped("+32", digits, mobileHint);
    JoinEndsInDigit(groups);
    StripUnpadded("+32 (0) ", JoinWith(" ", groups));
  }

  lemma BelgianPiecesAreGroups(digits: string, mobileHint: bool)
    requires digits != []
    ensures BelgianPieces(digits, mobileHint) == JoinWith(" ", PhoneGroups("+32", digits, mobileHint))
  {
  }

  /** "<code> (0) " followed by digit groups is left alone by `strip`. */
  lemma StripUnpadded(prefix: string, groups: string)
    requires prefix != [] && !IsSpace(prefix[0])
    requires groups != [] && IsDigit(groups[|groups| - 1])
    ensures Strip(prefix + groups) == prefix + groups
  {
    var s := prefix + groups;
    assert s[0] == prefix[0] && s[|s| - 1] == groups[|groups| - 1];
    StripExact([], s, []);
    assert [] + s + [] == s;
  }

  /** Outside Belgium the groups are simply the pairs of all digits. */
  lemma GenericGroupsArePairs(code: string, digits: string, mobileHint: bool)
    requires code != "+32"
    ensures PhoneGroups(code, digits, mobileHint) == Pairs(digits) || digits == []
  {
    var k := Min(2, |digits|);
    if 0 < |digits| <= 2 {
      assert digits[..k] == digits;
      assert digits[k..] == [];
    }
  }

  lemma GenericUnpadded(code: string, digits: string)
    requires AllDigits(digits)
    ensures code != [] && !IsSpace(code[0]) && code != "+32" && digits != [] ==>
      Strip(code + " (0) " + JoinWith(" ", Pairs(digits))) == code + " (0) " + JoinWith(" ", PhoneGroups(code, digits, false))
  {
    if code != [] && !IsSpace(code[0]) && code != "+32" && digits != [] {
      var groups := PhoneGroups(code, digits, false);
      PhoneGroupsWellGrouped(code, digits, false);
      GenericGroupsArePairs(code, digits, false);
      JoinEndsInDigit(groups);
      var prefix := code + " (0) ";
      assert prefix[0] == code[0];
      StripUnpadded(prefix, JoinWith(" ", groups));
    }
  }

  /**
   * Shape of a rendered number with digits: "<cc> (0) " and then the digit
   * groups separated by single spaces, the first group 3 digits wide for a
   * Belgian mobile number and 2 otherwise, later groups pairs.
   */
  lemma FormatPhoneShape(cc: string, number: string, mobileHint: bool)
    requires cc == [] || !IsSpace(cc[0])
    requires OnlyDigits(number) != []
    ensures var code, digits := EffectiveCode(cc), OnlyDigits(number);
      var groups := PhoneGroups(code, digits, mobileHint);
      && FormatPhone(cc, number, mobileHint) == code + " (0) " + JoinWith(" ", groups)
      && WellGrouped(groups, digits, FirstGroupWidth(code, digits, mobileHint))
      && (code == "+32" ==> (FirstGroupWidth(code, digits, mobileHint) == 3 <==> ((|digits| >= 8 && digits[0] == '4') || mobileHint)))
      && (code != "+32" ==> FirstGroupWidth(code, digits, mobileHint) == 2)
  {
    PhoneGroupsWellGrouped(EffectiveCode(cc), OnlyDigits(number), mobileHint);
  }

  /** A number without digits renders as "<cc> (0)" alone. */
  lemma FormatPhoneNoDigits(cc: string, number: string, mobileHint: bool)
    requires cc == [] || !IsSpace(cc[0])
    requires OnlyDigits(number) == []
    ensures FormatPhone(cc, number, mobileHint) == EffectiveCode(cc) + " (0)"
  {
    var code := EffectiveCode(cc);
    if code != "+32" && code != "+31" {
      assert JoinWith(" ", Pairs([])) == [];
      assert code + " (0) " + [] == code + " (0)" + " ";
      StripExact([], code + " (0)", " ");
      assert [] + (code + " (0)") + " " == code + " (0)" + " ";
    }
  }

  /** The digits of the rendering of a number with no digits: the code's and the trunk 0. */
  lemma NoDigitsKeepsDigits(cc: string, number: string, mobileHint: bool)
    requires OnlyDigits(number) == []
    ensures OnlyDigits(FormatPhone(cc, number, mobileHint)) == OnlyDigits(EffectiveCode(cc)) + "0"
  {
    var code := EffectiveCode(cc);
    if code == "+32" || code == "+31" {
      assert FormatPhone(cc, number, mobileHint) == code + " (0)";
      TrunkDigits(code);
    } else {
      GenericNoDigitsKeepsDigits(code);
    }
  }

  lemma GenericNoDigitsKeepsDigits(code: string)
    ensures OnlyDigits(FormatGeneric(code, [])) == OnlyDigits(code) + "0"
  {
    assert JoinWith(" ", Pairs([])) == [];
    assert code + " (0) " + [] == code + " (0) ";
    TrunkDigits(code);
    StripKeepsDigits(code + " (0) ");
  }

  /**
   * Formatting never drops, adds or reorders a digit of the number: the
   * digits of the display string are those of the country code, the trunk
   * "0", and then exactly the digits of the number.
   */
  lemma FormatPhoneKeepsDigits(cc: string, number: string, mobileHint: bool)
    ensures OnlyDigits(FormatPhone(cc, number, mobileHint))
         == OnlyDigits(EffectiveCode(cc)) + "0" + OnlyDigits(number)
  {
    var code, digits := EffectiveCode(cc), OnlyDigits(number);
    if digits == [] {
      NoDigitsKeepsDigits(cc, number, mobileHint);
    } else {
      var groups := PhoneGroups(code, digits, mobileHint);
      PhoneGroupsWellGrouped(code, digits, mobileHint);
      RenderedDigits(code, groups);
      if code != "+32" && code != "+31" && cc != [] {
        GenericGroupsArePairs(code, digits, mobileHint);
        assert FormatPhone(cc, number, mobileHint) == Strip(code + " (0) " + JoinWith(" ", groups));
        StripKeepsDigits(code + " (0) " + JoinWith(" ", groups));
      } else {
        assert cc == [] || cc[0] == '+';
        assert FormatPhone(cc, number, mobileHint) == code + " (0) " + JoinWith(" ", groups);
      }
    }
  }
}
