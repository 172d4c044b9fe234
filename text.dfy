/** Option datatype used for the loaders' "skip this row" outcomes. */
module Wrappers {
  datatype Option<+T> = None | Some(value: T)
}

/**
 * The two string primitives the loaders lean on: Python's `str.strip()` with
 * no argument and `int()` applied to a string, restricted to ASCII; plus the
 * decimal rendering `str(int)` that the CSV writer applies to integers.
 */
module Text {
  import opened Wrappers

  /** The ASCII characters Python's `str.isspace` accepts, which `strip()` removes: space,
      \t \n \v \f \r and the information separators \x1c..\x1f. */
  predicate IsSpace(c: char) {
    c == ' ' || (9 <= c as int <= 13) || (28 <= c as int <= 31)
  }

  /** The narrower ASCII set `int()` skips around a literal: space and \t \n \v \f \r only.
      The information separators are not skipped, so `int()` rejects a field holding one. */
  predicate IsIntSpace(c: char) {
    c == ' ' || (9 <= c as int <= 13)
  }

  /** Which of the two whitespace sets a trim removes. */
  datatype Spaces = StripSpaces | IntSpaces

  predicate InSpaces(w: Spaces, c: char) {
    match w
    case StripSpaces => IsSpace(c)
    case IntSpaces => IsIntSpace(c)
  }

  /** Drops leading whitespace of the set w. */
  function TrimLeft(w: Spaces, s: string): string {
    if s != [] && InSpaces(w, s[0]) then TrimLeft(w, s[1..]) else s
  }

  /** Drops trailing whitespace of the set w. */
  function TrimRight(w: Spaces, s: string): string {
    if s != [] && InSpaces(w, s[|s| - 1]) then TrimRight(w, s[..|s| - 1]) else s
  }

  /** TrimLeft gives the longest suffix that does not start with whitespace: everything it drops
      is whitespace. */
  lemma {:induction false} TrimLeftSpec(w: Spaces, s: string)
    ensures |TrimLeft(w, s)| <= |s| && TrimLeft(w, s) == s[|s| - |TrimLeft(w, s)|..]
    ensures forall k :: 0 <= k < |s| - |TrimLeft(w, s)| ==> InSpaces(w, s[k])
    ensures TrimLeft(w, s) == [] || !InSpaces(w, TrimLeft(w, s)[0])
  {
    if s != [] && InSpaces(w, s[0]) {
      TrimLeftSpec(w, s[1..]);
      var r := TrimLeft(w, s);
      forall k | 0 <= k < |s| - |r| ensures InSpaces(w, s[k]) {
        if k > 0 {
          assert s[k] == s[1..][k - 1];
        }
      }
    }
  }

  /** TrimRight gives the longest prefix that does not end with whitespace: everything it drops
      is whitespace. */
  lemma {:induction false} TrimRightSpec(w: Spaces, s: string)
    ensures |TrimRight(w, s)| <= |s| && TrimRight(w, s) == s[..|TrimRight(w, s)|]
    ensures forall k :: |TrimRight(w, s)| <= k < |s| ==> InSpaces(w, s[k])
    ensures TrimRight(w, s) == [] || !InSpaces(w, TrimRight(w, s)[|TrimRight(w, s)| - 1])
  {
    if s != [] && InSpaces(w, s[|s| - 1]) {
      var front := s[..|s| - 1];
      TrimRightSpec(w, front);
      var r := TrimRight(w, s);
      assert r == TrimRight(w, front);
      forall k | |r| <= k < |s| ensures InSpaces(w, s[k]) {
        if k < |s| - 1 {
          assert s[k] == front[k];
        }
      }
    }
  }

  /** Both ends trimmed. */
  function Trim(w: Spaces, s: string): string {
    TrimRight(w, TrimLeft(w, s))
  }

  /** Python's `s.strip()`. */
  function Strip(s: string): string {
    Trim(StripSpaces, s)
  }

  /** The text `int()` reads the literal from, once its own whitespace is skipped. */
  function IntTrim(s: string): string {
    Trim(IntSpaces, s)
  }

  /** A trimmed string is no longer than the original, and neither starts nor ends with
      whitespace. */
  lemma TrimSpec(w: Spaces, s: string)
    ensures |Trim(w, s)| <= |s|
    ensures Trim(w, s) == [] || (!InSpaces(w, Trim(w, s)[0]) && !InSpaces(w, Trim(w, s)[|Trim(w, s)| - 1]))
  {
    TrimLeftSpec(w, s);
    TrimRightSpec(w, TrimLeft(w, s));
    var l := TrimLeft(w, s);
    var r := TrimRight(w, l);
    if r != [] {
      assert r[0] == l[0];
    }
  }

  /** Trim removes exactly the whitespace run at each end: whenever s[..i] and s[j..] are all
      whitespace and s[i..j] neither starts nor ends with whitespace, `Trim(w, s)` is s[i..j]. */
  lemma TrimCharacterized(w: Spaces, s: string, i: nat, j: nat)
    requires i <= j <= |s|
    requires forall k :: 0 <= k < i ==> InSpaces(w, s[k])
    requires forall k :: j <= k < |s| ==> InSpaces(w, s[k])
    requires i < j ==> !InSpaces(w, s[i]) && !InSpaces(w, s[j - 1])
    ensures Trim(w, s) == s[i..j]
  {
    TrimLeftSpec(w, s);
    var l := TrimLeft(w, s);
    TrimRightSpec(w, l);
    var m := |s| - |l|;
    if i == j {
      // every character is whitespace, so TrimLeft consumes it all
      if l != [] {
        assert false;
      }
    } else {
      if m < i {
        assert false;
      } else if m > i {
        assert false;
      }
      assert l == s[i..];
      var r := TrimRight(w, l);
      if |r| < j - i {
        assert false;
      } else if |r| > j - i {
        assert false;
      }
    }
  }

  /** A trimmed string trims to itself, so stored names and directions are "already clean" and
      `int()` of a trimmed field is `int()` of the field. */
  lemma TrimIdempotent(w: Spaces, s: string)
    ensures Trim(w, Trim(w, s)) == Trim(w, s)
  {
    var r := Trim(w, s);
    TrimSpec(w, s);
    TrimCharacterized(w, r, 0, |r|);
  }

  /** `s.strip()` is empty exactly when s consists of whitespace only (the empty string included). */
  lemma StripEmptyIff(s: string)
    ensures Strip(s) == [] <==> forall k :: 0 <= k < |s| ==> IsSpace(s[k])
  {
    if forall k :: 0 <= k < |s| ==> IsSpace(s[k]) {
      TrimCharacterized(StripSpaces, s, 0, 0);
    } else {
      var k :| 0 <= k < |s| && !IsSpace(s[k]);
      TrimLeftSpec(StripSpaces, s);
      var l := TrimLeft(StripSpaces, s);
      TrimRightSpec(StripSpaces, l);
      assert |s| - |l| <= k;
      assert l[k - (|s| - |l|)] == s[k];
      var r := TrimRight(StripSpaces, l);
      if r == [] {
        assert false;
      }
    }
  }

  predicate IsDigit(c: char) {
    '0' <= c <= '9'
  }

  predicate AllDigits(s: string) {
    forall k :: 0 <= k < |s| ==> IsDigit(s[k])
  }

  function DigitValue(c: char): (d: nat)
    requires IsDigit(c)
    ensures d < 10
  {
    c as int - '0' as int
  }

  function DigitChar(d: nat): (c: char)
    requires d < 10
    ensures IsDigit(c) && DigitValue(c) == d
  {
    ('0' as int + d) as char
  }

  /** The value of a string of decimal digits, most significant first (leading zeros allowed). */
  function DigitsValue(ds: string): nat
    requires AllDigits(ds)
  {
    if ds == [] then 0 else DigitsValue(ds[..|ds| - 1]) * 10 + DigitValue(ds[|ds| - 1])
  }

  /** The shortest decimal spelling of a natural number, as Python's `str` gives it. */
  function NatText(n: nat): (r: string)
    ensures r != [] && AllDigits(r)
  {
    if n < 10 then [DigitChar(n)] else NatText(n / 10) + [DigitChar(n % 10)]
  }

  /** Python's `str(n)` for an int: a minus sign for negative numbers, then the digits. */
  function FormatInt(n: int): (r: string)
    ensures r != [] && !IsSpace(r[0]) && !IsSpace(r[|r| - 1])
  {
    if n < 0 then "-" + NatText(-n) else NatText(n)
  }

  /** The integer literal `int()` accepts once the surrounding whitespace is gone: an optional
      `+` or `-` followed by at least one decimal digit. */
  function ParseSigned(t: string): Option<int> {
    if t == [] then None
    else
      var body := if t[0] == '-' || t[0] == '+' then t[1..] else t;
      if body != [] && AllDigits(body) then
        Some(if t[0] == '-' then -(DigitsValue(body) as int) else DigitsValue(body))
      else None
  }

  /** Python's `int(s)` on a string: surrounding space or \t \n \v \f \r, an optional `+` or
      `-`, then at least one decimal digit. `None` stands for the `ValueError` that `int` raises
      otherwise. */
  function ParseInt(s: string): Option<int> {
    ParseSigned(IntTrim(s))
  }

  lemma {:induction false} DigitsValueOfNatText(n: nat)
    ensures DigitsValue(NatText(n)) == n
  {
    if n >= 10 {
      var r := NatText(n);
      assert r[..|r| - 1] == NatText(n / 10);
      DigitsValueOfNatText(n / 10);
    }
  }

  /** What the CSV writer prints for an integer reads back, through `int()`, as the same integer. */
  lemma ParseFormatRoundTrip(n: int)
    ensures ParseInt(FormatInt(n)) == Some(n)
  {
    var f := FormatInt(n);
    assert IntTrim(f) == f;
    if n < 0 {
      assert f[1..] == NatText(-n);
      DigitsValueOfNatText(-n);
    } else {
      DigitsValueOfNatText(n);
    }
  }

  /** `int()` ignores the whitespace it skips: it gives the same answer on the trimmed text. */
  lemma ParseIntIgnoresSpace(s: string)
    ensures ParseInt(IntTrim(s)) == ParseInt(s)
  {
    TrimIdempotent(IntSpaces, s);
  }

  /** A blank field, or one of `str.isspace` whitespace only, is never an integer. */
  lemma ParseIntRejectsBlank(s: string)
    requires forall k :: 0 <= k < |s| ==> IsSpace(s[k])
    ensures ParseInt(s) == None
  {
    TrimLeftSpec(IntSpaces, s);
    var l := TrimLeft(IntSpaces, s);
    TrimRightSpec(IntSpaces, l);
    var t := IntTrim(s);
    if t != [] {
      assert t[0] == s[|s| - |l|];
    }
  }

  /** `int()` does not skip an information separator \x1c..\x1f, though `strip()` does: a field
      that starts with one is never an integer. */
  lemma ParseIntRejectsSeparator(c: char, s: string)
    requires 28 <= c as int <= 31
    ensures ParseInt([c] + s) == None
    ensures Strip([c] + s) == Strip(s)
  {
    var f := [c] + s;
    assert f[1..] == s;
    assert TrimLeft(IntSpaces, f) == f;
    TrimRightSpec(IntSpaces, f);
    var t := IntTrim(f);
    if t != [] {
      assert t[0] == c;
    }
  }
}
