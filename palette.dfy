/** The colour parsing at the top of `create_captcha_image` (main.py:29-32):
    each of the four palette entries is read as the hexadecimal pairs at
    offsets 1, 3, 5 and 7, giving an RGBA tuple. */
module Palette {
  import opened Options
  import Ascii
  import Numerals

  /** A colour tuple as the comprehension builds it; `int(..., 16)` may give
      any integer, so the channels are not bytes by construction. */
  datatype Rgba = Rgba(r: int, g: int, b: int, a: int)

  /** The four colours `create_captcha_image` reads from `captcha_colors`. */
  datatype Palette = Palette(background: Rgba, text: Rgba, noise: Rgba, line: Rgba)

  predicate IsByte(v: int) { 0 <= v < 256 }

  predicate IsByteColor(c: Rgba) { IsByte(c.r) && IsByte(c.g) && IsByte(c.b) && IsByte(c.a) }

  /** Python's slice `s[i:j]` for `0 <= i <= j`: clipped to the string. */
  function Slice(s: string, i: nat, j: nat): string
    requires i <= j
  {
    if i >= |s| then [] else if j <= |s| then s[i..j] else s[i..]
  }

  /** `int(s[i:i+2], 16)`; `None` is the `ValueError` it may raise. */
  function Channel(s: string, i: nat): Option<int> {
    Numerals.ParseInt(Slice(s, i, i + 2), 16)
  }

  /** `tuple(int(s[i:i+2], 16) for i in (1, 3, 5, 7))`. */
  function ParseColor(s: string): Option<Rgba> {
    var r, g, b, a := Channel(s, 1), Channel(s, 3), Channel(s, 5), Channel(s, 7);
    if r.Some? && g.Some? && b.Some? && a.Some? then Some(Rgba(r.value, g.value, b.value, a.value))
    else None
  }

  /** The `#RRGGBBAA` form: nine characters, the last eight hexadecimal
      digits. The first character is never looked at. */
  predicate WellFormed(s: string) {
    && |s| == 9
    && Ascii.IsHexDigit(s[1]) && Ascii.IsHexDigit(s[2])
    && Ascii.IsHexDigit(s[3]) && Ascii.IsHexDigit(s[4])
    && Ascii.IsHexDigit(s[5]) && Ascii.IsHexDigit(s[6])
    && Ascii.IsHexDigit(s[7]) && Ascii.IsHexDigit(s[8])
  }

  /** The value of two hexadecimal digits, the first one the high one. */
  function HexPair(hi: char, lo: char): nat {
    16 * Numerals.DigitValue(hi) + Numerals.DigitValue(lo)
  }

  /** Two hexadecimal digits parse as their pair value, which is a byte. */
  lemma ChannelOfHexDigits(s: string, i: nat)
    requires i + 2 <= |s| && Ascii.IsHexDigit(s[i]) && Ascii.IsHexDigit(s[i + 1])
    ensures Channel(s, i) == Some(HexPair(s[i], s[i + 1]))
    ensures IsByte(HexPair(s[i], s[i + 1]))
  {
    var hi, lo := s[i], s[i + 1];
    var ds := Slice(s, i, i + 2);
    assert ds == [hi, lo];
    assert Numerals.DigitValue(hi) < 16 && Numerals.DigitValue(lo) < 16;
    Numerals.ParseIntTwoDigits(hi, lo, 16);
    assert Channel(s, i) == Numerals.ParseInt(ds, 16);
  }

  /** A `#RRGGBBAA` string gives exactly four channels, each the value of its
      hexadecimal pair and so a byte. */
  lemma ParseWellFormed(s: string)
    requires WellFormed(s)
    ensures ParseColor(s) == Some(Rgba(HexPair(s[1], s[2]), HexPair(s[3], s[4]),
                                       HexPair(s[5], s[6]), HexPair(s[7], s[8])))
    ensures IsByteColor(ParseColor(s).value)
  {
    ChannelOfHexDigits(s, 1);
    ChannelOfHexDigits(s, 3);
    ChannelOfHexDigits(s, 5);
    ChannelOfHexDigits(s, 7);
  }

  /** The six-digit `#RRGGBB` form fails: the alpha slice `s[7:9]` is empty
      and `int('', 16)` raises. */
  lemma ShortFormRejected(s: string)
    requires |s| == 7
    ensures ParseColor(s) == None
  {
    assert Slice(s, 7, 9) == [];
    assert Numerals.Strip([]) == [];
  }

  /** An eight-character string is accepted, its alpha read from one digit. */
  lemma EightCharacterForm(s: string)
    requires |s| == 8
    requires Ascii.IsHexDigit(s[1]) && Ascii.IsHexDigit(s[2]) && Ascii.IsHexDigit(s[3])
    requires Ascii.IsHexDigit(s[4]) && Ascii.IsHexDigit(s[5]) && Ascii.IsHexDigit(s[6])
    requires Ascii.IsHexDigit(s[7])
    ensures ParseColor(s) == Some(Rgba(HexPair(s[1], s[2]), HexPair(s[3], s[4]),
                                       HexPair(s[5], s[6]), Numerals.DigitValue(s[7])))
  {
    ChannelOfHexDigits(s, 1);
    ChannelOfHexDigits(s, 3);
    ChannelOfHexDigits(s, 5);
    assert Slice(s, 7, 9) == [s[7]];
    Numerals.ParseIntOneDigit(s[7], 16);
  }

  /** The lower-case hexadecimal digit of a value below 16. */
  function HexDigit(v: nat): (c: char)
    requires v < 16
    ensures Ascii.IsHexDigit(c) && !Ascii.IsUpper(c) && Numerals.DigitValue(c) == v
  {
    if v < 10 then ('0' as int + v) as char else ('a' as int + v - 10) as char
  }

  function HexByte(v: int): string
    requires IsByte(v)
  {
    [HexDigit(v / 16), HexDigit(v % 16)]
  }

  /** The `#rrggbbaa` text of a colour of bytes. */
  function FormatColor(c: Rgba): (s: string)
    requires IsByteColor(c)
    ensures WellFormed(s) && s[0] == '#'
  {
    "#" + HexByte(c.r) + HexByte(c.g) + HexByte(c.b) + HexByte(c.a)
  }

  /** Parsing inverts formatting. */
  lemma FormatThenParse(c: Rgba)
    requires IsByteColor(c)
    ensures ParseColor(FormatColor(c)) == Some(c)
  {
    var s := FormatColor(c);
    assert s == ['#'] + HexByte(c.r) + HexByte(c.g) + HexByte(c.b) + HexByte(c.a);
    assert s[1] == HexByte(c.r)[0] && s[2] == HexByte(c.r)[1];
    assert s[3] == HexByte(c.g)[0] && s[4] == HexByte(c.g)[1];
    assert s[5] == HexByte(c.b)[0] && s[6] == HexByte(c.b)[1];
    assert s[7] == HexByte(c.a)[0] && s[8] == HexByte(c.a)[1];
    HexByteValue(c.r);
    HexByteValue(c.g);
    HexByteValue(c.b);
    HexByteValue(c.a);
    ParseWellFormed(s);
  }

  /** The two digits of a byte give the byte back. */
  lemma HexByteValue(v: int)
    requires IsByte(v)
    ensures HexPair(HexByte(v)[0], HexByte(v)[1]) == v
  {
  }

  /** The four colour entries of `captcha_colors`; a missing entry is the
      `KeyError` the dictionary lookup raises, and `None`. */
  function ParsePalette(colors: map<string, string>): Option<Palette> {
    if "background" !in colors || "text" !in colors || "noise" !in colors || "line" !in colors then None
    else
      var bg, tx := ParseColor(colors["background"]), ParseColor(colors["text"]);
      var nz, ln := ParseColor(colors["noise"]), ParseColor(colors["line"]);
      if bg.Some? && tx.Some? && nz.Some? && ln.Some? then Some(Palette(bg.value, tx.value, nz.value, ln.value))
      else None
  }

  /** A missing entry is a `KeyError`, whatever the other entries hold. */
  lemma ParsePaletteMissingKey(colors: map<string, string>)
    requires "background" !in colors || "text" !in colors || "noise" !in colors || "line" !in colors
    ensures ParsePalette(colors) == None
  {
  }

  /** Four well-formed entries give a palette of byte colours. */
  lemma ParsePaletteWellFormed(colors: map<string, string>)
    requires "background" in colors && WellFormed(colors["background"])
    requires "text" in colors && WellFormed(colors["text"])
    requires "noise" in colors && WellFormed(colors["noise"])
    requires "line" in colors && WellFormed(colors["line"])
    ensures ParsePalette(colors).Some?
    ensures var p := ParsePalette(colors).value;
            IsByteColor(p.background) && IsByteColor(p.text) &&
            IsByteColor(p.noise) && IsByteColor(p.line)
  {
    ParseWellFormed(colors["background"]);
    ParseWellFormed(colors["text"]);
    ParseWellFormed(colors["noise"]);
    ParseWellFormed(colors["line"]);
  }
}
