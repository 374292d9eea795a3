/** Python's `int(text, base)` for the two bases the bot uses (10 for
    configuration values, 16 for colour channels), and its inverse for
    base 10 (`str(n)`). */
module Numerals {
  import opened Options
  import Ascii

  /** The value of a digit character in bases up to 36; 36 for anything
      that is not a digit in any base. */
  function DigitValue(c: char): (v: nat)
    ensures v <= 36
    ensures Ascii.IsDigit(c) <==> v < 10
    ensures Ascii.IsHexDigit(c) <==> v < 16
  {
    if '0' <= c <= '9' then c as int - '0' as int
    else if 'a' <= c <= 'z' then c as int - 'a' as int + 10
    else if 'A' <= c <= 'Z' then c as int - 'A' as int + 10
    else 36
  }

  predicate AllDigits(ds: string, base: nat) {
    forall k :: 0 <= k < |ds| ==> DigitValue(ds[k]) < base
  }

  function Pow(b: nat, e: nat): nat {
    if e == 0 then 1 else b * Pow(b, e - 1)
  }

  /** The positional value of a digit string, most significant digit first. */
  function Value(ds: string, base: nat): nat {
    if ds == [] then 0 else Value(ds[..|ds| - 1], base) * base + DigitValue(ds[|ds| - 1])
  }

  /** A numeral of n digits in base b denotes a number below b^n. */
  lemma {:induction false} ValueBound(ds: string, base: nat)
    requires AllDigits(ds, base)
    ensures Value(ds, base) < Pow(base, |ds|)
  {
    if ds != [] {
      var init := ds[..|ds| - 1];
      assert AllDigits(init, base);
      ValueBound(init, base);
      var v, d, p := Value(init, base), DigitValue(ds[|ds| - 1]), Pow(base, |init|);
      assert Value(ds, base) == v * base + d;
      assert Pow(base, |ds|) == base * p;
      DigitStep(v, d, p, base);
    }
  }

  lemma DigitStep(v: nat, d: nat, p: nat, base: nat)
    requires v < p && d < base
    ensures v * base + d < base * p
  {
    assert (v + 1) * base == v * base + base;
    assert (v + 1) * base <= p * base;
  }

  /** `str.lstrip()` */
  function StripStart(s: string): string {
    if s != [] && Ascii.IsSpace(s[0]) then StripStart(s[1..]) else s
  }

  /** `lstrip` removes a whitespace prefix and no more. */
  lemma {:induction false} StripStartFacts(s: string)
    ensures var r := StripStart(s);
            |r| <= |s| && r == s[|s| - |r|..] && (r == [] || !Ascii.IsSpace(r[0])) &&
            forall k :: 0 <= k < |s| - |r| ==> Ascii.IsSpace(s[k])
  {
    if s != [] && Ascii.IsSpace(s[0]) {
      StripStartFacts(s[1..]);
    }
  }

  /** `str.rstrip()` */
  function StripEnd(s: string): string {
    if s != [] && Ascii.IsSpace(s[|s| - 1]) then StripEnd(s[..|s| - 1]) else s
  }

  /** `rstrip` removes a whitespace suffix and no more. */
  lemma {:induction false} StripEndFacts(s: string)
    ensures var r := StripEnd(s);
            |r| <= |s| && r == s[..|r|] && (r == [] || !Ascii.IsSpace(r[|r| - 1])) &&
            forall k :: |r| <= k < |s| ==> Ascii.IsSpace(s[k])
  {
    if s != [] && Ascii.IsSpace(s[|s| - 1]) {
      StripEndFacts(s[..|s| - 1]);
    }
  }

  /** `str.strip()`, which `int()` applies to its argument. */
  function Strip(s: string): string {
    StripEnd(StripStart(s))
  }

  /** Python's `int(text, base)`: surrounding whitespace, an optional sign,
      then one or more digits of the base. `None` stands for `ValueError`. */
  function ParseInt(text: string, base: nat): Option<int>
    requires 2 <= base <= 36
  {
    var t := Strip(text);
    var signed := t != [] && (t[0] == '+' || t[0] == '-');
    var ds := if signed then t[1..] else t;
    if ds == [] || !AllDigits(ds, base) then None
    else
      var v: int := Value(ds, base);
      if signed && t[0] == '-' then Some(-v) else Some(v)
  }

  /** Every character that is not whitespace survives `Strip`. */
  lemma StripKeeps(s: string, k: nat)
    requires k < |s| && !Ascii.IsSpace(s[k])
    ensures exists j :: 0 <= j < |Strip(s)| && Strip(s)[j] == s[k]
  {
    StripStartFacts(s);
    var a := StripStart(s);
    StripEndFacts(a);
    var off := |s| - |a|;
    assert k >= off;
    assert a[k - off] == s[k];
    var b := StripEnd(a);
    assert k - off < |b|;
    assert Strip(s)[k - off] == s[k];
  }

  /** A text holding a letter is never a decimal integer: `int("abc")`
      raises `ValueError`. */
  lemma ParseIntRejectsLetter(text: string, k: nat)
    requires k < |text| && Ascii.IsLetter(text[k])
    ensures ParseInt(text, 10) == None
  {
    StripKeeps(text, k);
    var t := Strip(text);
    var j :| 0 <= j < |t| && t[j] == text[k];
    var signed := t != [] && (t[0] == '+' || t[0] == '-');
    var ds := if signed then t[1..] else t;
    if signed {
      assert j >= 1;
      assert ds[j - 1] == text[k];
    } else {
      assert ds[j] == text[k];
    }
  }

  function DigitChar(d: nat): (c: char)
    requires d < 10
    ensures Ascii.IsDigit(c) && DigitValue(c) == d
  {
    ('0' as int + d) as char
  }

  /** `str(n)` for a natural number. */
  function NatToString(n: nat): (s: string)
    ensures s != [] && AllDigits(s, 10)
    ensures !Ascii.IsSpace(s[0]) && !Ascii.IsSpace(s[|s| - 1])
    ensures s[0] != '+' && s[0] != '-'
  {
    if n < 10 then [DigitChar(n)] else NatToString(n / 10) + [DigitChar(n % 10)]
  }

  /** `str(i)` for an integer. */
  function IntToString(i: int): string {
    if i < 0 then "-" + NatToString(-i) else NatToString(i)
  }

  /** `str(i)` starts and ends with a non-blank. */
  lemma IntToStringEnds(i: int)
    ensures IntToString(i) != []
    ensures !Ascii.IsSpace(IntToString(i)[0]) && !Ascii.IsSpace(IntToString(i)[|IntToString(i)| - 1])
  {
  }

  lemma {:induction false} NatToStringValue(n: nat)
    ensures Value(NatToString(n), 10) == n
  {
    var s := NatToString(n);
    if n >= 10 {
      NatToStringValue(n / 10);
      assert s[..|s| - 1] == NatToString(n / 10);
    }
  }

  lemma StripNoSpace(s: string)
    requires s != [] && !Ascii.IsSpace(s[0]) && !Ascii.IsSpace(s[|s| - 1])
    ensures Strip(s) == s
  {
  }

  /** The value of a one- or two-digit numeral. */
  lemma ValueOfShort(ds: string, base: nat)
    requires 1 <= |ds| <= 2
    ensures |ds| == 1 ==> Value(ds, base) == DigitValue(ds[0])
    ensures |ds| == 2 ==> Value(ds, base) == DigitValue(ds[0]) * base + DigitValue(ds[1])
  {
    assert ds[..1][..0] == [];
    if |ds| == 2 {
      assert ds[..1] == [ds[0]];
    }
  }

  /** One digit parses as its value. */
  lemma ParseIntOneDigit(d: char, base: nat)
    requires 2 <= base <= 36 && DigitValue(d) < base
    ensures ParseInt([d], base) == Some(DigitValue(d))
  {
    assert !Ascii.IsSpace(d) && d != '+' && d != '-';
    StripNoSpace([d]);
    assert AllDigits([d], base);
    assert [d][..0] == [];
    assert Value([d], base) == DigitValue(d);
  }

  /** Two digits parse as the value of the pair. */
  lemma ParseIntTwoDigits(hi: char, lo: char, base: nat)
    requires 2 <= base <= 36 && DigitValue(hi) < base && DigitValue(lo) < base
    ensures ParseInt([hi, lo], base) == Some(DigitValue(hi) * base + DigitValue(lo))
  {
    var ds := [hi, lo];
    assert !Ascii.IsSpace(hi) && !Ascii.IsSpace(lo) && hi != '+' && hi != '-';
    StripNoSpace(ds);
    assert AllDigits(ds, base);
    ValueOfShort(ds, base);
  }

  /** `int(str(i)) == i`: decimal parsing inverts decimal formatting. */
  lemma ParseIntRoundTrip(i: int)
    ensures ParseInt(IntToString(i), 10) == Some(i)
  {
    var s := IntToString(i);
    var m := if i < 0 then -i else i;
    NatToStringValue(m);
    StripNoSpace(s);
    if i < 0 {
      assert s[1..] == NatToString(m);
    }
  }
}
