/**
 `PutUint16` of `Src/command.c`: print a 16-bit value as four upper-case
 hexadecimal digits, most significant first, one `PutChr` per digit.
 */
module Hex {
  import opened CommandDefs

  const HexChr: string := "0123456789ABCDEF"

  type Uint16 = x: int | 0 <= x < 0x1_0000

  /** `value >> s` for an unsigned value: halve `s` times, rounding down. */
  function Shr(value: nat, s: nat): nat
  {
    if s == 0 then value else Shr(value, s - 1) / 2
  }

  /** `0x0F & (value >> s)`: masking with 0x0F keeps the remainder modulo 16. */
  function Nibble(value: Uint16, s: nat): (r: nat)
    ensures r < 16
  {
    Shr(value, s) % 16
  }

  predicate IsHexDigit(c: char) {
    '0' <= c <= '9' || 'A' <= c <= 'F'
  }

  /** The value of one digit, read back. */
  function DigitValue(c: char): (r: nat)
    requires IsHexDigit(c)
    ensures r < 16
  {
    if c <= '9' then c as int - '0' as int else c as int - 'A' as int + 10
  }

  /** A digit string read as a hexadecimal number, most significant first. */
  function HexValue(s: string): nat
    requires forall i :: 0 <= i < |s| ==> IsHexDigit(s[i])
  {
    if |s| == 0 then 0 else HexValue(s[..|s| - 1]) * 16 + DigitValue(s[|s| - 1])
  }

  /** Reading back the digit `HexChr` holds for a nibble gives the nibble. */
  lemma HexChrDigit(n: nat)
    requires n < 16
    ensures IsHexDigit(HexChr[n]) && DigitValue(HexChr[n]) == n
  {
  }

  /** Shifting four more places divides by 16. */
  lemma ShrFour(value: nat, s: nat)
    ensures Shr(value, s + 4) == Shr(value, s) / 16
  {
    assert Shr(value, s + 4) == Shr(value, s + 3) / 2;
    assert Shr(value, s + 3) == Shr(value, s + 2) / 2;
    assert Shr(value, s + 2) == Shr(value, s + 1) / 2;
  }

  /** A 16-bit value shifted right by 16 is zero. */
  lemma ShrSixteen(value: Uint16)
    ensures Shr(value, 16) == 0
  {
    ShrFour(value, 0);
    ShrFour(value, 4);
    ShrFour(value, 8);
    ShrFour(value, 12);
  }

  /** Appending one digit shifts the value read so far by one place. */
  lemma HexValueAppend(t: string, c: char)
    requires forall i :: 0 <= i < |t| ==> IsHexDigit(t[i])
    requires IsHexDigit(c)
    ensures forall i :: 0 <= i < |t + [c]| ==> IsHexDigit((t + [c])[i])
    ensures HexValue(t + [c]) == HexValue(t) * 16 + DigitValue(c)
  {
    assert (t + [c])[..|t|] == t;
  }

  /** Printing the nibble at `s` after the digits of `value >> (s + 4)`
      gives the digits of `value >> s`. */
  lemma DigitStep(value: Uint16, s: int, t: string)
    requires s == 0 || s == 4 || s == 8 || s == 12
    requires forall i :: 0 <= i < |t| ==> IsHexDigit(t[i])
    requires HexValue(t) == Shr(value, s + 4)
    ensures forall i :: 0 <= i < |t + [HexChr[Nibble(value, s)]]| ==> IsHexDigit((t + [HexChr[Nibble(value, s)]])[i])
    ensures HexValue(t + [HexChr[Nibble(value, s)]]) == Shr(value, s)
  {
    var n := Nibble(value, s);
    HexChrDigit(n);
    ShrFour(value, s);
    HexValueAppend(t, HexChr[n]);
  }

  /** The printed text is four single-character writes of digits from
      `HexChr`, and reading them back as hexadecimal gives `value`. */
  method PutUint16(value: Uint16) returns (out: seq<string>)
    ensures |out| == 4
    ensures forall i :: 0 <= i < |out| ==> |out[i]| == 1 && IsHexDigit(out[i][0])
    ensures forall i :: 0 <= i < |Flatten(out)| ==> IsHexDigit(Flatten(out)[i])
    ensures HexValue(Flatten(out)) == value
  {
    out := [];
    ghost var text: string := [];
    var s := 12;
    ghost var k := 0;
    ShrSixteen(value);
    while s >= 0
      invariant 0 <= k <= 4 && s == 12 - 4 * k
      invariant |out| == k
      invariant forall i :: 0 <= i < |out| ==> |out[i]| == 1 && IsHexDigit(out[i][0])
      invariant Flatten(out) == text
      invariant forall i :: 0 <= i < |text| ==> IsHexDigit(text[i])
      invariant HexValue(text) == Shr(value, s + 4)
    {
      var n := Nibble(value, s);
      HexChrDigit(n);
      FlattenAppend(out, [[HexChr[n]]]);
      DigitStep(value, s, text);
      out := out + [[HexChr[n]]];
      text := text + [HexChr[n]];
      s := s - 4;
      k := k + 1;
    }
  }
}
