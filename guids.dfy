/**
 * Globally unique identifiers and their canonical text form.
 *
 * A Guid is modelled by the 32 hexadecimal digits of its canonical text, in
 * the order they are printed. `Format` is `Guid.ToString()` ("D" format:
 * 8-4-4-4-12 lower-case digits separated by hyphens) and `TryParse` is
 * `Guid.TryParse` restricted to that format, accepting either letter case.
 */
module Guids {
  import opened Wrappers

  newtype Nibble = x: int | 0 <= x < 16

  type Guid = s: seq<Nibble> | |s| == 32 witness seq(32, _ => 0)

  /** Length of the "D" text form. */
  const TextLength := 36

  predicate IsHyphenPosition(j: int) {
    j == 8 || j == 13 || j == 18 || j == 23
  }

  /** Position in the text form of the i-th hexadecimal digit. */
  function DigitPosition(i: nat): (j: nat)
    requires i < 32
    ensures j < TextLength && !IsHyphenPosition(j)
  {
    if i < 8 then i
    else if i < 12 then i + 1
    else if i < 16 then i + 2
    else if i < 20 then i + 3
    else i + 4
  }

  /** Index of the digit printed at text position j. */
  function DigitIndex(j: nat): (i: nat)
    requires j < TextLength && !IsHyphenPosition(j)
    ensures i < 32 && DigitPosition(i) == j
  {
    if j < 8 then j
    else if j < 13 then j - 1
    else if j < 18 then j - 2
    else if j < 23 then j - 3
    else j - 4
  }

  function HexDigit(n: Nibble): (c: char)
    ensures c != '-' && c != ':'
  {
    if n < 10 then ('0' as int + n as int) as char
    else ('a' as int + n as int - 10) as char
  }

  /** The value of a hexadecimal digit of either case. */
  function HexValue(c: char): (r: Option<Nibble>)
    ensures r.Some? ==> c != '-' && c != ':'
  {
    if '0' <= c <= '9' then Some((c as int - '0' as int) as Nibble)
    else if 'a' <= c <= 'f' then Some((c as int - 'a' as int + 10) as Nibble)
    else if 'A' <= c <= 'F' then Some((c as int - 'A' as int + 10) as Nibble)
    else None
  }

  lemma HexValueOfDigit(n: Nibble)
    ensures HexValue(HexDigit(n)) == Some(n)
  {
  }

  /** `Guid.ToString()`. */
  function Format(g: Guid): (s: string)
    ensures |s| == TextLength
    ensures forall j | 0 <= j < |s| :: s[j] != ':'
  {
    seq(TextLength, j requires 0 <= j < TextLength =>
      if IsHyphenPosition(j) then '-' else HexDigit(g[DigitIndex(j)]))
  }

  predicate IsDFormat(s: string) {
    && |s| == TextLength
    && (forall j | 0 <= j < TextLength && IsHyphenPosition(j) :: s[j] == '-')
    && (forall j | 0 <= j < TextLength && !IsHyphenPosition(j) :: HexValue(s[j]).Some?)
  }

  /** `Guid.TryParse(text, out g)`: a null text or one that is not a Guid gives None. */
  function TryParse(text: Option<string>): (r: Option<Guid>)
    ensures r.Some? <==> text.Some? && IsDFormat(text.value)
    ensures r.Some? ==> forall i | 0 <= i < 32 :: HexValue(text.value[DigitPosition(i)]) == Some(r.value[i])
  {
    if text.Some? && IsDFormat(text.value) then
      var s := text.value;
      Some(seq(32, i requires 0 <= i < 32 => HexValue(s[DigitPosition(i)]).value))
    else
      None
  }

  /** Parsing the printed form of a Guid gives that Guid back. */
  lemma ParseFormat(g: Guid)
    ensures TryParse(Some(Format(g))) == Some(g)
  {
    var s := Format(g);
    forall j | 0 <= j < TextLength && !IsHyphenPosition(j)
      ensures HexValue(s[j]).Some?
    {
      HexValueOfDigit(g[DigitIndex(j)]);
    }
    assert IsDFormat(s);
    var r := TryParse(Some(s)).value;
    forall i | 0 <= i < 32 ensures r[i] == g[i] {
      assert s[DigitPosition(i)] == HexDigit(g[i]);
      HexValueOfDigit(g[i]);
    }
    assert r == g;
  }

  /** Distinct Guids print differently. */
  lemma FormatInjective(g: Guid, h: Guid)
    requires Format(g) == Format(h)
    ensures g == h
  {
    ParseFormat(g);
    ParseFormat(h);
  }
}
