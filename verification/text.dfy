/**
 * Character classes and the Python string primitives the record logic is
 * built from: `str.isdigit`, `str.strip`, `str.join` and the filter
 * `"".join(ch for ch in s if ch.isdigit())`.
 *
 * Digits are the ASCII digits '0'..'9' only; Python's `isdigit` also accepts
 * other Unicode digits, which this model does not.  Whitespace is exactly the
 * set of characters for which Python's `str.isspace` holds.
 */
module Text {

  function Min(x: int, y: int): int { if x <= y then x else y }

  predicate IsDigit(c: char) { '0' <= c <= '9' }

  /** Python's `str.isspace` for one character. */
  predicate IsSpace(c: char)
  {
    || '\t' <= c <= '\r'
    || '\U{001C}' <= c <= '\U{001F}'
    || c == ' '
    || c == '\U{0085}' || c == '\U{00A0}' || c == '\U{1680}'
    || '\U{2000}' <= c <= '\U{200A}'
    || c == '\U{2028}' || c == '\U{2029}' || c == '\U{202F}'
    || c == '\U{205F}' || c == '\U{3000}'
  }

  predicate AllDigits(s: string) { forall i :: 0 <= i < |s| ==> IsDigit(s[i]) }

  predicate AllSpace(s: string) { forall i :: 0 <= i < |s| ==> IsSpace(s[i]) }

  /** `only_digits`: the digits of `s`, in order. */
  function OnlyDigits(s: string): (r: string)
    ensures AllDigits(r)
    ensures |r| <= |s|
  {
    if s == [] then []
    else (if IsDigit(s[0]) then [s[0]] else []) + OnlyDigits(s[1..])
  }

  /** A text made of digits only is its own digit string. */
  lemma {:induction false} OnlyDigitsOfDigits(s: string)
    requires AllDigits(s)
    ensures OnlyDigits(s) == s
  {
    if s != [] {
      OnlyDigitsOfDigits(s[1..]);
    }
  }

  lemma {:induction false} OnlyDigitsAppend(a: string, b: string)
    ensures OnlyDigits(a + b) == OnlyDigits(a) + OnlyDigits(b)
  {
    if a == [] {
      assert a + b == b;
    } else {
      assert (a + b)[1..] == a[1..] + b;
      OnlyDigitsAppend(a[1..], b);
    }
  }

  /** A separator contributes no digit. */
  lemma SeparatorDigits(a: string, sep: char, b: string)
    requires !IsDigit(sep)
    ensures OnlyDigits(a + [sep] + b) == OnlyDigits(a) + OnlyDigits(b)
  {
    OnlyDigitsAppend(a + [sep], b);
    OnlyDigitsAppend(a, [sep]);
    assert OnlyDigits([sep]) == [] by { assert [sep][1..] == []; }
  }

  lemma {:induction false} OnlyDigitsOfSpaces(s: string)
    requires AllSpace(s)
    ensures OnlyDigits(s) == []
  {
    if s != [] {
      assert !IsDigit(s[0]);
      OnlyDigitsOfSpaces(s[1..]);
    }
  }

  /** Python's `str.lstrip()`: drops the leading whitespace. */
  function TrimLeft(s: string): (r: string)
    ensures |r| <= |s|
  {
    if s != [] && IsSpace(s[0]) then TrimLeft(s[1..]) else s
  }

  /** What `lstrip` removes is whitespace, and what it keeps starts with a non-space. */
  lemma {:induction false} TrimLeftSplit(s: string)
    ensures var r := TrimLeft(s);
      && r == s[|s| - |r|..] && AllSpace(s[..|s| - |r|])
      && (r == [] || !IsSpace(r[0]))
  {
    if s != [] && IsSpace(s[0]) {
      TrimLeftSplit(s[1..]);
      var r := TrimLeft(s);
      assert s[..|s| - |r|] == [s[0]] + s[1..][..|s[1..]| - |r|];
    }
  }

  /** Python's `str.rstrip()`: drops the trailing whitespace. */
  function TrimRight(s: string): (r: string)
    ensures |r| <= |s|
  {
    if s != [] && IsSpace(s[|s| - 1]) then TrimRight(s[..|s| - 1]) else s
  }

  /** What `rstrip` removes is whitespace, and what it keeps ends with a non-space. */
  lemma {:induction false} TrimRightSplit(s: string)
    ensures var r := TrimRight(s);
      && r == s[..|r|] && AllSpace(s[|r|..])
      && (r == [] || !IsSpace(r[|r| - 1]))
  {
    if s != [] && IsSpace(s[|s| - 1]) {
      var p := s[..|s| - 1];
      TrimRightSplit(p);
      var r := TrimRight(s);
      assert s[|r|..] == p[|r|..] + [s[|s| - 1]];
    }
  }

  /** `strip` cuts a text into leading whitespace, the stripped text and trailing whitespace. */
  lemma StripSplit(s: string) returns (i: nat, j: nat)
    ensures i <= j <= |s|
    ensures AllSpace(s[..i]) && Strip(s) == s[i..j] && AllSpace(s[j..])
  {
    var t := TrimLeft(s);
    var r := TrimRight(t);
    TrimLeftSplit(s);
    TrimRightSplit(t);
    i := |s| - |t|;
    j := i + |r|;
    assert s[j..] == t[|r|..];
  }

  /** Every character `strip` keeps was in the text. */
  lemma StripKeepsChars(s: string)
    ensures forall c :: c in Strip(s) ==> c in s
  {
    var i, j := StripSplit(s);
    forall c | c in Strip(s)
      ensures c in s
    {
      var k :| 0 <= k < |s[i..j]| && s[i..j][k] == c;
      assert s[i + k] == c;
    }
  }

  /** Python's `str.strip()`. */
  function Strip(s: string): (r: string)
    ensures |r| <= |s|
  {
    TrimRight(TrimLeft(s))
  }

  /** `strip` leaves no whitespace at either end, and leaves nothing only of a blank text. */
  lemma StripEnds(s: string)
    ensures var r := Strip(s);
      && (r == [] || (!IsSpace(r[0]) && !IsSpace(r[|r| - 1])))
      && (r == [] <==> AllSpace(s))
  {
    var t := TrimLeft(s);
    var r := TrimRight(t);
    TrimLeftSplit(s);
    TrimRightSplit(t);
    if r == [] {
      assert s == s[..|s| - |t|] + t;
      assert t == t[|r|..];
    }
  }

  lemma {:induction false} TrimLeftExact(a: string, b: string)
    requires AllSpace(a)
    requires b == [] || !IsSpace(b[0])
    ensures TrimLeft(a + b) == b
  {
    if a == [] {
      assert a + b == b;
    } else {
      assert (a + b)[1..] == a[1..] + b;
      TrimLeftExact(a[1..], b);
    }
  }

  lemma {:induction false} TrimRightExact(b: string, c: string)
    requires AllSpace(c)
    requires b == [] || !IsSpace(b[|b| - 1])
    ensures TrimRight(b + c) == b
  {
    if c == [] {
      assert b + c == b;
    } else {
      assert (b + c)[..|b + c| - 1] == b + c[..|c| - 1];
      TrimRightExact(b, c[..|c| - 1]);
    }
  }

  /** Whatever whitespace surrounds a text whose ends are not whitespace, `strip` returns exactly that text. */
  lemma StripExact(a: string, b: string, c: string)
    requires AllSpace(a) && AllSpace(c)
    requires b == [] || (!IsSpace(b[0]) && !IsSpace(b[|b| - 1]))
    ensures Strip(a + b + c) == b
  {
    if b == [] {
      assert a + b + c == (a + c) + [];
      assert AllSpace(a + c);
      TrimLeftExact(a + c, []);
    } else {
      assert a + b + c == a + (b + c);
      TrimLeftExact(a, b + c);
      TrimRightExact(b, c);
    }
  }

  /** A text without whitespace at either end, as `strip` leaves it. */
  predicate Trimmed(s: string)
  {
    s == [] || (!IsSpace(s[0]) && !IsSpace(s[|s| - 1]))
  }

  /**
   * `" ".join([a, b]).strip()`, or `f"{a} {b}".strip()`, for trimmed parts: the
   * space stays only between two non-empty parts.
   */
  lemma StripSpaced(a: string, b: string)
    ensures Trimmed(a) && Trimmed(b) ==>
      Strip(a + " " + b) == if a != [] && b != [] then a + " " + b else a + b
  {
    if Trimmed(a) && Trimmed(b) {
      if a != [] && b != [] {
        var full := a + " " + b;
        assert full[0] == a[0] && full[|full| - 1] == b[|b| - 1];
        StripExact([], full, []);
        assert [] + full + [] == full;
      } else if a != [] {
        StripExact([], a, " ");
        assert [] + a + " " == a + " " + b;
      } else {
        StripExact(" ", b, []);
        assert " " + b + [] == a + " " + b;
        assert a + b == b;
      }
    }
  }

  /** `strip` only removes whitespace, so it keeps every digit. */
  lemma {:induction false} StripKeepsDigits(s: string)
    ensures OnlyDigits(Strip(s)) == OnlyDigits(s)
  {
    var i, j := StripSplit(s);
    assert s == s[..i] + s[i..j] + s[j..];
    OnlyDigitsAppend(s[..i] + s[i..j], s[j..]);
    OnlyDigitsAppend(s[..i], s[i..j]);
    OnlyDigitsOfSpaces(s[..i]);
    OnlyDigitsOfSpaces(s[j..]);
  }

  /** Python's `sep.join(parts)`. */
  function JoinWith(sep: string, parts: seq<string>): string
  {
    if |parts| == 0 then ""
    else if |parts| == 1 then parts[0]
    else parts[0] + sep + JoinWith(sep, parts[1..])
  }

  function Concat(parts: seq<string>): string
  {
    if parts == [] then "" else parts[0] + Concat(parts[1..])
  }

  /** Joining digit groups with spaces and then keeping the digits gives the groups back, run together. */
  lemma {:induction false} JoinSpacesKeepsDigits(parts: seq<string>)
    requires forall g | g in parts :: AllDigits(g)
    ensures OnlyDigits(JoinWith(" ", parts)) == Concat(parts)
  {
    if |parts| == 1 {
      assert parts[0] in parts;
      OnlyDigitsOfDigits(parts[0]);
      assert Concat(parts[1..]) == "";
    } else if |parts| > 1 {
      assert parts[0] in parts;
      OnlyDigitsOfDigits(parts[0]);
      assert forall g | g in parts[1..] :: g in parts;
      JoinSpacesKeepsDigits(parts[1..]);
      OnlyDigitsAppend(parts[0] + " ", JoinWith(" ", parts[1..]));
      OnlyDigitsAppend(parts[0], " ");
    }
  }

  /** A space-joined list of non-empty digit groups ends in a digit. */
  lemma {:induction false} JoinEndsInDigit(parts: seq<string>)
    requires |parts| > 0
    requires forall g | g in parts :: g != [] && AllDigits(g)
    ensures var j := JoinWith(" ", parts); j != [] && IsDigit(j[|j| - 1])
  {
    assert parts[0] in parts;
    if |parts| > 1 {
      assert forall g | g in parts[1..] :: g in parts;
      JoinEndsInDigit(parts[1..]);
      assert JoinWith(" ", parts) == parts[0] + " " + JoinWith(" ", parts[1..]);
    }
  }
}
