/** `code_point_to_json_escape` (src/flumps/string_helpers.cpp): the `\uXXXX`
    fallback the string encoder uses for control bytes, modelled as written.
    Two slips make it differ from section 7 of RFC 8259: each digit is
    `to_hex(cp & 4u)` rather than `to_hex(cp & 0xF)`, so only '0' and '4' are
    ever written; and the split of a supplementary code point masks with `&`
    where `|` was meant, so both halves come out as 0. */
module JsonEscape {
  import opened Bytes
  import opened Exception
  import opened Utf8Codec
  import opened HexDigits

  /** `cp >> (4 * j)`. */
  function Shifted(cp: nat, j: nat): nat {
    if j == 0 then cp else Shifted(cp, j - 1) / 16
  }

  /** The digit the loop writes for `c`, the code point shifted right by a
      multiple of four bits: `to_hex(c & 4u)`, which is '4' when bit 2 of `c` is
      set and '0' otherwise. */
  function EscapeDigit(c: nat): (b: byte)
    ensures b == (if c / 4 % 2 == 1 then DIGIT_0 + 4 else DIGIT_0)
  {
    ToHex(c / 4 % 2 * 4)
  }

  /** 2 to the power k. */
  function Pow2(k: nat): (p: nat)
    ensures p >= 1
  {
    if k == 0 then 1 else 2 * Pow2(k - 1)
  }

  /** Bitwise `a & b` on unsigned values, bit by bit from the lowest. */
  function BitAnd(a: nat, b: nat): nat
    decreases a
  {
    if a == 0 || b == 0 then 0
    else 2 * BitAnd(a / 2, b / 2) + (if a % 2 == 1 && b % 2 == 1 then 1 else 0)
  }

  /** `0xD800 & (c >> 10u)`, the "high surrogate" of the split. */
  function SplitHigh(c: nat): nat {
    BitAnd(0xD800, c / 1024)
  }

  /** `0xDC00 & (c & 0x03FF)`, the "low surrogate" of the split (the inner mask
      keeps the low ten bits, `c % 1024`). */
  function SplitLow(c: nat): nat {
    BitAnd(0xDC00, c % 1024)
  }

  /** A mask whose low k bits are clear has no bit in common with a value
      below 2^k. */
  lemma {:induction false} BitAndDisjoint(m: nat, k: nat, b: nat)
    requires b < Pow2(k)
    ensures BitAnd(m * Pow2(k), b) == 0
  {
    if k > 0 && m * Pow2(k) != 0 && b != 0 {
      var t := m * Pow2(k - 1);
      assert m * Pow2(k) == 2 * t;
      assert (m * Pow2(k)) / 2 == t && (m * Pow2(k)) % 2 == 0;
      BitAndDisjoint(m, k - 1, b / 2);
    }
  }

  /** Both masks share no bit with the ten bits they are applied to. */
  lemma SplitMasksVanish(c: nat)
    requires c < 0x100000
    ensures SplitHigh(c) == 0 && SplitLow(c) == 0
  {
    assert Pow2(10) == 1024;
    assert 0xD800 == 54 * Pow2(10);
    assert 0xDC00 == 55 * Pow2(10);
    BitAndDisjoint(54, 10, c / 1024);
    BitAndDisjoint(55, 10, c % 1024);
  }

  /** The bytes appended for a code point at most U+10FFFF. Above U+10000 the
      two masked halves are escaped in turn; otherwise "\u0000" is written and
      the loop overwrites one digit per nibble of cp, from the right; a fifth
      nibble (only U+10000 has one) overwrites the 'u'. */
  function EscapeBytes(cp: nat): (e: seq<byte>)
    requires cp <= MAX_CODE_POINT
    ensures |e| == (if cp > 0x10000 then 12 else 6)
    ensures e[0] == BACKSLASH
    ensures forall i :: 2 <= i < |e| && i != 6 && i != 7 ==> e[i] == DIGIT_0 || e[i] == DIGIT_0 + 4
    decreases cp
  {
    if cp > 0x10000 then
      SplitMasksVanish(cp - 0x10000);
      EscapeBytes(SplitHigh(cp - 0x10000)) + EscapeBytes(SplitLow(cp - 0x10000))
    else
      [BACKSLASH,
       if Shifted(cp, 4) == 0 then LOWER_U else EscapeDigit(Shifted(cp, 4)),
       EscapeDigit(Shifted(cp, 3)), EscapeDigit(Shifted(cp, 2)),
       EscapeDigit(Shifted(cp, 1)), EscapeDigit(cp)]
  }

  /** `code_point_to_json_escape`: throws above U+10FFFF. */
  function JsonEscape(cp: nat): (r: Result<seq<byte>>)
    ensures r.Ok? <==> cp <= MAX_CODE_POINT
    ensures r.Err? ==> r.error == UnicodeCodePointError
  {
    if cp > MAX_CODE_POINT then Err(UnicodeCodePointError) else Ok(EscapeBytes(cp))
  }

  /** Once a shift reaches 0, every further shift stays 0. */
  lemma {:induction false} ShiftedStaysZero(cp: nat, i: nat, j: nat)
    requires i <= j && Shifted(cp, i) == 0
    ensures Shifted(cp, j) == 0
    decreases j - i
  {
    if i < j {
      ShiftedStaysZero(cp, i, j - 1);
    }
  }

  lemma ShiftedAsDivision(cp: nat)
    ensures Shifted(cp, 1) == cp / 16
    ensures Shifted(cp, 2) == cp / 256
    ensures Shifted(cp, 3) == cp / 4096
    ensures Shifted(cp, 4) == cp / 0x10000
    ensures Shifted(cp, 5) == cp / 0x100000
  {
    assert cp / 16 / 16 == cp / 256;
    assert cp / 256 / 16 == cp / 4096;
    assert cp / 4096 / 16 == cp / 0x10000;
    assert cp / 0x10000 / 16 == cp / 0x100000;
  }

  /** `code_point_to_json_escape(cp, &output)`: the range check, the recursive
      split, then "\u0000" and the digit loop. */
  method AppendJsonEscape(cp: nat, output: seq<byte>) returns (r: Result<seq<byte>>)
    ensures r == Prepend(output, JsonEscape(cp))
  {
    if cp > MAX_CODE_POINT {
      return Err(UnicodeCodePointError);
    }
    var out := WriteJsonEscape(cp, output);
    r := Ok(out);
  }

  /** The part of `code_point_to_json_escape` after its range check (the check
      cannot fire in the recursive calls, whose arguments are 0). */
  method WriteJsonEscape(cp: nat, output: seq<byte>) returns (out: seq<byte>)
    requires cp <= MAX_CODE_POINT
    ensures out == output + EscapeBytes(cp)
    decreases cp
  {
    if cp > 0x10000 {
      var c := cp - 0x10000;
      var high := SplitHigh(c);
      var low := SplitLow(c);
      SplitMasksVanish(c);
      out := WriteJsonEscape(high, output);
      out := WriteJsonEscape(low, out);
      return;
    }
    var e := WriteEscapeDigits(cp);
    out := output + e;
  }

  /** "\u0000" and the loop that overwrites it from the right, one digit
      `to_hex(cp & 4u)` per nibble, while `cp >> 4` is not yet 0. */
  method WriteEscapeDigits(cp: nat) returns (e: seq<byte>)
    requires cp <= 0x10000
    ensures e == EscapeBytes(cp)
  {
    e := [BACKSLASH, LOWER_U, DIGIT_0, DIGIT_0, DIGIT_0, DIGIT_0];
    var k := 5;
    var c := cp;
    ghost var i := 0;
    while c > 0
      invariant 0 <= i <= 5 && k == 5 - i
      invariant c == Shifted(cp, i)
      invariant forall j :: 0 <= j < i ==> Shifted(cp, j) > 0
      invariant e == Written(cp, i)
    {
      ShiftedAsDivision(cp);
      if i == 5 {
        assert false;
      }
      WrittenStep(cp, i);
      e := e[k := ToHex(c / 4 % 2 * 4)];
      k := k - 1;
      c := c / 16;
      i := i + 1;
    }
    WrittenComplete(cp, i);
  }

  /** The buffer after the loop has written the digits of the `n` lowest
      nibbles: digit m sits at index 5 - m, and the fifth overwrites the 'u'. */
  function Written(cp: nat, n: nat): (e: seq<byte>)
    ensures |e| == 6
  {
    [BACKSLASH,
     if n == 5 then EscapeDigit(Shifted(cp, 4)) else LOWER_U,
     if 3 < n then EscapeDigit(Shifted(cp, 3)) else DIGIT_0,
     if 2 < n then EscapeDigit(Shifted(cp, 2)) else DIGIT_0,
     if 1 < n then EscapeDigit(Shifted(cp, 1)) else DIGIT_0,
     if 0 < n then EscapeDigit(cp) else DIGIT_0]
  }

  /** One turn of the loop writes the next digit. */
  lemma WrittenStep(cp: nat, n: nat)
    requires n < 5
    ensures Written(cp, n)[5 - n := EscapeDigit(Shifted(cp, n))] == Written(cp, n + 1)
  {
  }

  /** When the shifted value reaches 0 the remaining digits would all be '0',
      so the buffer is the whole escape. */
  lemma WrittenComplete(cp: nat, n: nat)
    requires cp <= 0x10000 && n <= 5 && Shifted(cp, n) == 0
    requires forall j :: 0 <= j < n ==> Shifted(cp, j) > 0
    ensures Written(cp, n) == EscapeBytes(cp)
  {
    ShiftedAsDivision(cp);
    forall j | n <= j <= 4
      ensures Shifted(cp, j) == 0
    {
      ShiftedStaysZero(cp, n, j);
    }
  }

  // ---------------------------------------------------------------------------
  // Properties
  // ---------------------------------------------------------------------------

  /** A digit depends only on the lowest nibble, and is the right digit for that
      nibble exactly when the nibble is 0 or 4. */
  lemma EscapeDigitOfNibble(x: nat)
    ensures EscapeDigit(x) == EscapeDigit(x % 16)
    ensures EscapeDigit(x) == LowerHexDigit(x % 16) <==> x % 16 == 0 || x % 16 == 4
  {
    var q, r := x / 16, x % 16;
    BitTwoOf(x, q, r);
  }

  /** Bit 2 of `16 * q + r` is bit 2 of `r`. */
  lemma BitTwoOf(x: nat, q: nat, r: nat)
    requires r < 16 && x == 16 * q + r
    ensures x / 4 % 2 == r / 4 % 2
  {
    assert x / 4 == 4 * q + r / 4;
  }

  /** The escape written for a byte below 0x80: "\u00" and two digits, each
      '4' or '0' according to bit 6 and bit 2 of the byte. */
  lemma EscapeOfAsciiByte(b: nat)
    requires b < 0x80
    ensures JsonEscape(b) == Ok([BACKSLASH, LOWER_U, DIGIT_0, DIGIT_0, EscapeDigit(b / 16), EscapeDigit(b)])
  {
    ShiftedAsDivision(b);
  }

  /** Below U+10000 the escape is the correct `\uXXXX` (section 7 of RFC 8259)
      exactly when each of the four nibbles of the code point is 0 or 4. */
  lemma EscapeCorrectOnlyForZeroFourNibbles(cp: nat)
    requires cp < 0x10000
    ensures JsonEscape(cp) == Ok([BACKSLASH, LOWER_U] + HexDigits4(cp)) <==>
      ZeroOrFour(cp / 4096) && ZeroOrFour(cp / 256) && ZeroOrFour(cp / 16) && ZeroOrFour(cp)
  {
    var e := EscapeBytes(cp);
    var g := [BACKSLASH, LOWER_U] + HexDigits4(cp);
    EscapeAgainstHex(cp);
    assert JsonEscape(cp) == Ok(e);
    if ZeroOrFour(cp / 4096) && ZeroOrFour(cp / 256) && ZeroOrFour(cp / 16) && ZeroOrFour(cp) {
      assert e == g;
    } else {
      assert e[2] != g[2] || e[3] != g[3] || e[4] != g[4] || e[5] != g[5];
    }
  }

  /** The lowest nibble of `c` is 0 or 4. */
  predicate ZeroOrFour(c: nat) {
    c % 16 == 0 || c % 16 == 4
  }

  /** The escape and the correct `\uXXXX` side by side: they share their first
      two bytes, and each digit agrees exactly when its nibble is 0 or 4. */
  lemma EscapeAgainstHex(cp: nat)
    requires cp < 0x10000
    ensures var e, g := EscapeBytes(cp), [BACKSLASH, LOWER_U] + HexDigits4(cp);
      |e| == |g| == 6 && e[0] == g[0] && e[1] == g[1]
      && (e[2] == g[2] <==> ZeroOrFour(cp / 4096))
      && (e[3] == g[3] <==> ZeroOrFour(cp / 256))
      && (e[4] == g[4] <==> ZeroOrFour(cp / 16))
      && (e[5] == g[5] <==> ZeroOrFour(cp))
  {
    var top := cp / 4096;
    EscapeBytesBelow(cp);
    var h := HexDigits4(cp);
    assert h[0] == LowerHexDigit(top % 16) by {
      SmallNibble(top);
    }
    EscapeDigitOfNibble(top);
    EscapeDigitOfNibble(cp / 256);
    EscapeDigitOfNibble(cp / 16);
    EscapeDigitOfNibble(cp);
  }

  lemma SmallNibble(x: nat)
    requires x < 16
    ensures x % 16 == x
  {
  }

  /** Below U+10000 the escape is "\u" and one digit per nibble. */
  lemma EscapeBytesBelow(cp: nat)
    requires cp < 0x10000
    ensures EscapeBytes(cp)
      == [BACKSLASH, LOWER_U, EscapeDigit(cp / 4096), EscapeDigit(cp / 256), EscapeDigit(cp / 16), EscapeDigit(cp)]
  {
    ShiftedAsDivision(cp);
    assert cp / 0x10000 == 0;
  }

  /** Concrete cases: U+001F and U+007F come out as "\u0004" and "\u0044";
      U+0000 is right; U+10000 loses its 'u'. */
  lemma EscapeExamples()
    ensures JsonEscape(0x1F) == Ok([BACKSLASH, LOWER_U, DIGIT_0, DIGIT_0, DIGIT_0, DIGIT_0 + 4])
    ensures JsonEscape(0x7F) == Ok([BACKSLASH, LOWER_U, DIGIT_0, DIGIT_0, DIGIT_0 + 4, DIGIT_0 + 4])
    ensures JsonEscape(0) == Ok([BACKSLASH, LOWER_U, DIGIT_0, DIGIT_0, DIGIT_0, DIGIT_0])
    ensures JsonEscape(0x10000) == Ok([BACKSLASH, DIGIT_0, DIGIT_0, DIGIT_0, DIGIT_0, DIGIT_0])
  {
    EscapeOfAsciiByte(0x1F);
    EscapeOfAsciiByte(0x7F);
    EscapeOfAsciiByte(0);
    ShiftedAsDivision(0x10000);
  }

  /** Every code point above U+10000 (and up to U+10FFFF) becomes
      "\u0000\u0000"; above U+10FFFF the escape throws. */
  lemma EscapeOfSupplementary(cp: nat)
    requires 0x10000 < cp
    ensures cp <= MAX_CODE_POINT ==>
      JsonEscape(cp) == Ok([BACKSLASH, LOWER_U, DIGIT_0, DIGIT_0, DIGIT_0, DIGIT_0,
                            BACKSLASH, LOWER_U, DIGIT_0, DIGIT_0, DIGIT_0, DIGIT_0])
    ensures cp > MAX_CODE_POINT ==> JsonEscape(cp) == Err(UnicodeCodePointError)
  {
    if cp <= MAX_CODE_POINT {
      SplitMasksVanish(cp - 0x10000);
      EscapeOfAsciiByte(0);
      assert EscapeBytes(0) == [BACKSLASH, LOWER_U, DIGIT_0, DIGIT_0, DIGIT_0, DIGIT_0];
      assert EscapeBytes(cp) == EscapeBytes(0) + EscapeBytes(0);
      assert EscapeBytes(0) + EscapeBytes(0) ==
        [BACKSLASH, LOWER_U, DIGIT_0, DIGIT_0, DIGIT_0, DIGIT_0,
         BACKSLASH, LOWER_U, DIGIT_0, DIGIT_0, DIGIT_0, DIGIT_0];
    }
  }
}
