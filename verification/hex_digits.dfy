/** Hexadecimal digits in src/flumps/string_helpers.cpp: recognising them
    (`is_hex`), their values (`hex_to_dec`), the four-digit `\uXXXX` payload
    (`json_hex_seq_to_code_point`) and the digit writer `to_hex`. */
module HexDigits {
  import opened Bytes
  import opened Exception

  /** `is_hex`: a digit, or a letter a-f in either case. */
  predicate IsHex(b: byte) {
    DIGIT_0 <= b <= DIGIT_9 || LOWER_A <= b <= LOWER_F || UPPER_A <= b <= UPPER_F
  }

  /** `hex_to_dec`, which assumes a hex digit: its value 0..15. */
  function HexToDec(b: byte): (v: nat)
    requires IsHex(b)
    ensures v < 16
    ensures v < 10 <==> IsDec(b)
  {
    if b <= DIGIT_9 then b - DIGIT_0
    else if b >= LOWER_A then 10 + (b - LOWER_A)
    else 10 + (b - UPPER_A)
  }

  /** The lower-case digit of a value below 16, as section 7 of RFC 8259 writes it. */
  function LowerHexDigit(v: nat): (b: byte)
    requires v < 16
    ensures IsHex(b)
  {
    if v < 10 then DIGIT_0 + v else LOWER_A + (v - 10)
  }

  /** `to_hex(val)`: '0' + val below 0x0b, otherwise 'a' + (val - 0x0a), kept to
      a char. The bound 0x0b is one too high: 10 becomes ':' instead of 'a'. */
  function ToHex(v: byte): (r: byte)
    ensures v < 16 && v != 10 ==> IsHex(r) && HexToDec(r) == v
    ensures v == 10 ==> r == COLON
  {
    if v < 0x0b then DIGIT_0 + v else (LOWER_A + (v - 0x0a)) % 256
  }

  /** 16 to the power n. */
  function Pow16(n: nat): (p: nat)
    ensures p >= 1
  {
    if n == 0 then 1 else 16 * Pow16(n - 1)
  }

  /** The value of hex digits read most significant first. */
  function HexValue(d: seq<byte>): (v: nat)
    requires forall i :: 0 <= i < |d| ==> IsHex(d[i])
    ensures v < Pow16(|d|)
  {
    if d == [] then 0 else HexValue(d[..|d| - 1]) * 16 + HexToDec(d[|d| - 1])
  }

  /** The index of the first byte of `d` that is not a hex digit, or |d|. */
  function FirstNonHex(d: seq<byte>): (k: nat)
    ensures k <= |d|
    ensures forall j :: 0 <= j < k ==> IsHex(d[j])
    ensures k < |d| ==> !IsHex(d[k])
  {
    if d == [] || !IsHex(d[0]) then 0 else 1 + FirstNonHex(d[1..])
  }

  lemma {:induction false} FirstNonHexAt(d: seq<byte>, k: nat)
    requires k <= |d|
    requires forall j :: 0 <= j < k ==> IsHex(d[j])
    requires k < |d| ==> !IsHex(d[k])
    ensures FirstNonHex(d) == k
  {
    if k > 0 {
      FirstNonHexAt(d[1..], k - 1);
    }
  }

  /** What `json_hex_seq_to_code_point` does at the start of `s` (the range
      [pos, end)): fewer than four bytes left throws at once without moving;
      a byte that is not a hex digit throws where it stands; otherwise the
      big-endian value of the four digits, four bytes further on. */
  function HexSeqToCodePoint(s: seq<byte>): (c: Scan<nat>)
    ensures c.pos <= 4
    ensures c.result.Ok? <==> |s| >= 4 && forall i :: 0 <= i < 4 ==> IsHex(s[i])
    ensures c.result.Err? ==> c.result.error == JsonParseError
    ensures c.result.Ok? ==> c.pos == 4 && c.result.value < 0x10000
    ensures |s| < 4 ==> c.result.Err? && c.pos == 0
    ensures c.result.Err? && |s| >= 4 ==> c.pos < 4 && !IsHex(s[c.pos])
    ensures c.result.Err? && |s| >= 4 ==> forall i :: 0 <= i < c.pos ==> IsHex(s[i])
  {
    if |s| < 4 then Scan(Err(JsonParseError), 0)
    else
      var k := FirstNonHex(s[..4]);
      if k < 4 then Scan(Err(JsonParseError), k)
      else Scan(Ok(HexValue(s[..4])), 4)
  }

  /** `json_hex_seq_to_code_point(&pos, end)`: each digit is shifted into place
      by `column * 4` bits, column counting down from 3. */
  method JsonHexSeqToCodePoint(s: seq<byte>, pos: nat) returns (r: Result<nat>, next: nat)
    requires pos <= |s|
    ensures pos <= next <= |s|
    ensures HexSeqToCodePoint(s[pos..]) == Scan(r, next - pos)
  {
    next := pos;
    if |s| - pos < 4 {
      return Err(JsonParseError), next;
    }
    assert s[pos..][..4] == s[pos..pos + 4];
    var column := 3;
    var cp := 0;
    while next != pos + 4
      invariant pos <= next <= pos + 4
      invariant column == 3 - (next - pos)
      invariant forall j :: pos <= j < next ==> IsHex(s[j])
      invariant cp == HexValue(s[pos..next]) * Pow16(column + 1)
    {
      if !IsHex(s[next]) {
        FirstNonHexAt(s[pos..pos + 4], next - pos);
        return Err(JsonParseError), next;
      }
      HexStep(s, pos, next, column, cp);
      cp := cp + HexToDec(s[next]) * Pow16(column);
      column := column - 1;
      next := next + 1;
    }
    FirstNonHexAt(s[pos..pos + 4], 4);
    r := Ok(cp);
  }

  /** A turn of the loop of `json_hex_seq_to_code_point` at a hex digit. */
  lemma HexStep(s: seq<byte>, pos: nat, next: nat, column: nat, cp: int)
    requires pos <= next < pos + 4 <= |s| && column == 3 - (next - pos)
    requires (forall j :: pos <= j < next ==> IsHex(s[j])) && IsHex(s[next])
    requires cp == HexValue(s[pos..next]) * Pow16(column + 1)
    ensures forall j :: pos <= j < next + 1 ==> IsHex(s[j])
    ensures cp + HexToDec(s[next]) * Pow16(column) == HexValue(s[pos..next + 1]) * Pow16(column)
  {
    assert s[pos..next + 1][..next - pos] == s[pos..next];
    ShiftDigit(s[pos..next + 1], column);
  }

  /** One more digit, weighted by `16^column`, extends the running value. */
  lemma ShiftDigit(d: seq<byte>, column: nat)
    requires d != [] && forall i :: 0 <= i < |d| ==> IsHex(d[i])
    ensures HexValue(d) * Pow16(column)
         == HexValue(d[..|d| - 1]) * Pow16(column + 1) + HexToDec(d[|d| - 1]) * Pow16(column)
  {
    var h, x, w := HexValue(d[..|d| - 1]), HexToDec(d[|d| - 1]), Pow16(column);
    assert HexValue(d) == h * 16 + x;
    assert Pow16(column + 1) == 16 * w;
    Distribute(h, x, w);
  }

  lemma Distribute(h: int, x: int, w: int)
    ensures (h * 16 + x) * w == h * (16 * w) + x * w
  {
  }

  /** The four lower-case digits of a value below 0x10000, most significant first. */
  function HexDigits4(v: nat): (d: seq<byte>)
    requires v < 0x10000
    ensures |d| == 4 && forall i :: 0 <= i < 4 ==> IsHex(d[i])
  {
    [LowerHexDigit(v / 4096), LowerHexDigit(v / 256 % 16),
     LowerHexDigit(v / 16 % 16), LowerHexDigit(v % 16)]
  }

  // ---------------------------------------------------------------------------
  // Properties
  // ---------------------------------------------------------------------------

  /** `hex_to_dec` inverts the lower-case digit writer, and reads an upper-case
      letter as the same value as its lower-case form. */
  lemma HexToDecInvertsDigit(v: nat, b: byte)
    requires v < 16
    ensures HexToDec(LowerHexDigit(v)) == v
    ensures IsHex(b) && !(UPPER_A <= b <= UPPER_F) ==> LowerHexDigit(HexToDec(b)) == b
    ensures UPPER_A <= b <= UPPER_F ==> HexToDec(b) == HexToDec(b + 0x20)
  {
  }

  /** The hex digits are exactly the characters 0-9, a-f and A-F. */
  lemma IsHexCharacterised(b: byte)
    ensures IsHex(b) <==> b as char in "0123456789abcdefABCDEF"
  {
  }

  /** `to_hex` writes the right digit for every value below 16 except 10, which
      it writes as ':'. */
  lemma ToHexAgreesExceptTen(v: nat)
    requires v < 16
    ensures ToHex(v) == LowerHexDigit(v) <==> v != 10
    ensures ToHex(10) == COLON + 0
  {
  }

  lemma HexValueOfFour(d: seq<byte>)
    requires |d| == 4 && forall i :: 0 <= i < 4 ==> IsHex(d[i])
    ensures HexValue(d) == ((HexToDec(d[0]) * 16 + HexToDec(d[1])) * 16 + HexToDec(d[2])) * 16 + HexToDec(d[3])
  {
    assert d[..3][..2] == d[..2];
    assert d[..2][..1] == d[..1];
    assert d[..1][..0] == [];
    assert HexValue(d[..1]) == HexToDec(d[0]);
    assert HexValue(d[..2]) == HexValue(d[..1]) * 16 + HexToDec(d[1]);
    assert HexValue(d[..3]) == HexValue(d[..2]) * 16 + HexToDec(d[2]);
  }

  lemma SplitNibbles(v: nat)
    requires v < 0x10000
    ensures v / 4096 < 16
    ensures ((v / 4096 * 16 + v / 256 % 16) * 16 + v / 16 % 16) * 16 + v % 16 == v
  {
    assert v / 4096 * 16 + v / 256 % 16 == v / 256;
    assert v / 256 * 16 + v / 16 % 16 == v / 16;
  }

  /** Reading back four digits written for a value gives that value, and moves
      exactly four bytes, whatever follows. */
  lemma HexSeqRoundTrip(v: nat, rest: seq<byte>)
    requires v < 0x10000
    ensures HexSeqToCodePoint(HexDigits4(v) + rest) == Scan(Ok(v), 4)
  {
    var s := HexDigits4(v) + rest;
    var a, b, c, e := v / 4096, v / 256 % 16, v / 16 % 16, v % 16;
    SplitNibbles(v);
    assert s[..4] == HexDigits4(v);
    HexValueOfFour(s[..4]);
    HexToDecInvertsDigit(a, 0);
    HexToDecInvertsDigit(b, 0);
    HexToDecInvertsDigit(c, 0);
    HexToDecInvertsDigit(e, 0);
    assert HexValue(s[..4]) == ((a * 16 + b) * 16 + c) * 16 + e;
  }

  /** The unit tests: "09aF____" is 0x09AF, read from its first four bytes;
      "000" is too short; in "000_" the '_' stops the scan where it stands. */
  lemma HexSeqExamples()
    ensures HexSeqToCodePoint([0x30, 0x39, 0x61, 0x46, 0x5F, 0x5F, 0x5F, 0x5F]) == Scan(Ok(0x09AF), 4)
    ensures HexSeqToCodePoint([0x30, 0x30, 0x30]) == Scan(Err(JsonParseError), 0)
    ensures HexSeqToCodePoint([0x30, 0x30, 0x30, 0x5F]) == Scan(Err(JsonParseError), 3)
  {
    var d: seq<byte> := [0x30, 0x39, 0x61, 0x46, 0x5F, 0x5F, 0x5F, 0x5F];
    assert d[..4] == [0x30, 0x39, 0x61, 0x46];
    HexValueOfFour(d[..4]);
    FirstNonHexAt(d[..4], 4);
    var e: seq<byte> := [0x30, 0x30, 0x30, 0x5F];
    assert e[..4] == e;
    FirstNonHexAt(e, 3);
  }
}
