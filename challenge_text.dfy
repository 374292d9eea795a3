/** The CAPTCHA answer generator `generate_random_text` (main.py:24-26):
    `length` calls of `random.choice` over `ascii_letters + digits`. The
    random source is an input: `draws[k]` is the index `random.choice`
    picks on its k-th call. */
module ChallengeText {
  import Ascii

  /** `string.ascii_lowercase`, `string.ascii_uppercase`, `string.digits` */
  const Lowercase: string := "abcdefghijklmnopqrstuvwxyz"
  const Uppercase: string := "ABCDEFGHIJKLMNOPQRSTUVWXYZ"
  const Digits: string := "0123456789"

  predicate IsAlphanumeric(c: char) { Ascii.IsLetter(c) || Ascii.IsDigit(c) }

  /** The symbol at position `i` of `ascii_letters + digits`. */
  function Symbol(i: nat): (c: char)
    requires i < 62
    ensures IsAlphanumeric(c)
  {
    if i < 26 then ('a' as int + i) as char
    else if i < 52 then ('A' as int + (i - 26)) as char
    else ('0' as int + (i - 52)) as char
  }

  /** `string.ascii_letters + string.digits`, the 62 symbols of a challenge,
      by position. */
  function Alphabet(): (a: string)
    ensures |a| == 62
  {
    seq(62, i requires 0 <= i < 62 => Symbol(i))
  }

  lemma LetterCodes()
    ensures forall i :: 0 <= i < 26 ==> Lowercase[i] as int == 'a' as int + i
    ensures forall i :: 0 <= i < 26 ==> Uppercase[i] as int == 'A' as int + i
  {
  }

  lemma DigitCodes()
    ensures forall i :: 0 <= i < 10 ==> Digits[i] as int == '0' as int + i
  {
  }

  /** The positional alphabet is exactly the concatenation the source writes. */
  lemma AlphabetIsLettersThenDigits()
    ensures Alphabet() == Lowercase + Uppercase + Digits
  {
    LetterCodes();
    DigitCodes();
    var a, b := Alphabet(), Lowercase + Uppercase + Digits;
    forall i | 0 <= i < 62 ensures a[i] == b[i] {
      if i < 26 { assert b[i] == Lowercase[i]; }
      else if i < 52 { assert b[i] == Uppercase[i - 26]; }
      else { assert b[i] == Digits[i - 52]; }
    }
  }

  /** The position of an alphanumeric character in the alphabet. */
  function IndexOf(c: char): (i: nat)
    requires IsAlphanumeric(c)
    ensures i < 62 && Alphabet()[i] == c
  {
    if Ascii.IsLower(c) then c as int - 'a' as int
    else if Ascii.IsUpper(c) then 26 + (c as int - 'A' as int)
    else 52 + (c as int - '0' as int)
  }

  /** Each symbol sits at its own position, so no symbol occurs twice: a
      uniform choice of index is a uniform choice of symbol. */
  lemma AlphabetDistinct()
    ensures forall i :: 0 <= i < 62 ==> IndexOf(Alphabet()[i]) == i
  {
  }

  /** Each draw is an index `random.choice` can return for the alphabet. */
  predicate ValidDraws(draws: seq<nat>) {
    forall k :: 0 <= k < |draws| ==> draws[k] < 62
  }

  /** `generate_random_text(length)`, consuming the first `length` draws. */
  function Generate(length: nat, draws: seq<nat>): (text: string)
    requires length <= |draws| && ValidDraws(draws)
    ensures |text| == length
    ensures forall k :: 0 <= k < length ==> text[k] == Alphabet()[draws[k]]
    ensures forall k :: 0 <= k < length ==> IsAlphanumeric(text[k])
  {
    if length == 0 then [] else Generate(length - 1, draws) + [Alphabet()[draws[length - 1]]]
  }

  /** Different draws give different challenges: generation loses no randomness. */
  lemma GenerateInjective(length: nat, d1: seq<nat>, d2: seq<nat>)
    requires length <= |d1| && ValidDraws(d1)
    requires length <= |d2| && ValidDraws(d2)
    ensures Generate(length, d1) == Generate(length, d2) <==> d1[..length] == d2[..length]
  {
    AlphabetDistinct();
    var t1, t2 := Generate(length, d1), Generate(length, d2);
    if t1 == t2 {
      forall k | 0 <= k < length ensures d1[k] == d2[k] {
        assert Alphabet()[d1[k]] == t1[k] == t2[k] == Alphabet()[d2[k]];
        assert IndexOf(Alphabet()[d1[k]]) == d1[k] && IndexOf(Alphabet()[d2[k]]) == d2[k];
      }
      assert d1[..length] == d2[..length];
    } else {
      var k :| 0 <= k < length && t1[k] != t2[k];
      assert d1[..length][k] != d2[..length][k];
    }
  }

  /** The draws that make `random.choice` pick the characters of `text`. */
  function DrawsFor(text: string): (draws: seq<nat>)
    requires forall k :: 0 <= k < |text| ==> IsAlphanumeric(text[k])
    ensures |draws| == |text| && ValidDraws(draws)
    ensures forall k :: 0 <= k < |text| ==> Alphabet()[draws[k]] == text[k]
  {
    if text == [] then [] else DrawsFor(text[..|text| - 1]) + [IndexOf(text[|text| - 1])]
  }

  /** Every alphanumeric string is the challenge of some draws: with uniform
      draws every alphanumeric string of the requested length is equally likely. */
  lemma GenerateSurjective(text: string)
    requires forall k :: 0 <= k < |text| ==> IsAlphanumeric(text[k])
    ensures Generate(|text|, DrawsFor(text)) == text
  {
    var d := DrawsFor(text);
    SameThroughAlphabet(Generate(|text|, d), d, text);
  }

  /** Two strings that pick the same alphabet positions are equal. */
  lemma SameThroughAlphabet(s: string, d: seq<nat>, t: string)
    requires |s| == |d| == |t| && ValidDraws(d)
    requires forall k :: 0 <= k < |s| ==> s[k] == Alphabet()[d[k]]
    requires forall k :: 0 <= k < |t| ==> Alphabet()[d[k]] == t[k]
    ensures s == t
  {
  }
}
