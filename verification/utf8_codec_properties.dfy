/** What the UTF-8 decoder, the encoder and the surrogate tracker promise,
    proved from their definitions in Utf8Codec. */
module Utf8CodecProperties {
  import opened Bytes
  import opened Exception
  import opened Utf8Codec

  /** Unfolding `Accumulate` over one, two and three continuation bytes. */
  lemma AccumulateSmall(bits: nat, a: byte, b: byte, c: byte)
    ensures Accumulate(bits, [a]) == bits * 64 + a % 64
    ensures Accumulate(bits, [a, b]) == (bits * 64 + a % 64) * 64 + b % 64
    ensures Accumulate(bits, [a, b, c]) == ((bits * 64 + a % 64) * 64 + b % 64) * 64 + c % 64
  {
    assert [a, b][..1] == [a];
    assert [a, b, c][..2] == [a, b];
  }

  /** Once the lead byte is valid and all the continuation bytes it announces
      are present, only the accumulated value decides the outcome. */
  lemma Utf8DecodeWellFormed(s: seq<byte>)
    requires s != [] && 0 < SequenceLength(s[0]) <= |s|
    requires forall j :: 1 <= j < SequenceLength(s[0]) ==> IsContinuation(s[j])
    ensures var n := SequenceLength(s[0]);
            var cp := Accumulate(LeadBits(s[0]), s[1..n]);
            Utf8Decode(s) == if cp > MAX_CODE_POINT then Scan(Err(UnicodeCodePointError), n)
                             else if IsSurrogate(cp) then Scan(Err(Utf8DecodeError), n)
                             else Scan(Ok(cp), n)
  {
    var n := SequenceLength(s[0]);
    FirstNonContinuationAt(s[1..n], n - 1);
  }

  /** The boundary sequences of the unit tests decode to their code points and
      move pos by exactly their length, whatever follows them: the one- and
      two-byte forms. */
  lemma Utf8DecodeExamples()
    ensures Utf8Decode([0x7F, 0x5F]) == Scan(Ok(0x7F), 1)
    ensures Utf8Decode([0xCF, 0x8F, 0x5F]) == Scan(Ok(0x3CF), 2)
  {
    Utf8DecodeWellFormed([0x7F, 0x5F]);
    assert [0xCF, 0x8F, 0x5F][1..2] == [0x8F];
    Utf8DecodeWellFormed([0xCF, 0x8F, 0x5F]);
  }

  /** The three-byte form of the same unit tests. */
  lemma Utf8DecodeThreeByteExample()
    ensures Utf8Decode([0xEF, 0x8F, 0x8F, 0x5F]) == Scan(Ok(0xF3CF), 3)
  {
    AccumulateSmall(0x0F, 0x8F, 0x8F, 0x8F);
    assert [0xEF, 0x8F, 0x8F, 0x5F][1..3] == [0x8F, 0x8F];
    Utf8DecodeWellFormed([0xEF, 0x8F, 0x8F, 0x5F]);
  }

  /** The four-byte form of the same unit tests: U+10FFFF, the largest code
      point, is accepted. */
  lemma Utf8DecodeFourByteExample()
    ensures Utf8Decode([0xF4, 0x8F, 0xBF, 0xBF, 0x5F]) == Scan(Ok(0x10FFFF), 4)
  {
    AccumulateSmall(0x04, 0x8F, 0xBF, 0xBF);
    assert [0xF4, 0x8F, 0xBF, 0xBF, 0x5F][1..4] == [0x8F, 0xBF, 0xBF];
    Utf8DecodeWellFormed([0xF4, 0x8F, 0xBF, 0xBF, 0x5F]);
  }

  /** The malformed sequences of the unit tests: a bad lead byte, truncated
      sequences and bad continuation bytes raise Utf8DecodeError. */
  lemma Utf8DecodeRejections()
    ensures Utf8Decode([0xF8, 0x5F]) == Scan(Err(Utf8DecodeError), 0)
    ensures Utf8Decode([0xC7]) == Scan(Err(Utf8DecodeError), 1)
    ensures Utf8Decode([0xC7, 0xFF]) == Scan(Err(Utf8DecodeError), 1)
    ensures Utf8Decode([0xE7, 0x8F]) == Scan(Err(Utf8DecodeError), 1)
    ensures Utf8Decode([0xF7, 0x8F, 0xFF]) == Scan(Err(Utf8DecodeError), 1)
    ensures Utf8Decode([0xF7, 0x8F, 0x8F]) == Scan(Err(Utf8DecodeError), 1)
    ensures Utf8Decode([0xF4, 0x8F, 0xB0, 0xFF]) == Scan(Err(Utf8DecodeError), 3)
  {
    assert [0xC7, 0xFF][1..2] == [0xFF];
    assert [0xF4, 0x8F, 0xB0, 0xFF][1..4] == [0x8F, 0xB0, 0xFF];
    FirstNonContinuationAt([0x8F, 0xB0, 0xFF], 2);
  }

  /** A well-formed sequence whose value is above U+10FFFF raises
      UnicodeCodePointError. */
  lemma Utf8DecodeAboveMaxRejected()
    ensures Utf8Decode([0xF4, 0x90, 0x90, 0x90]) == Scan(Err(UnicodeCodePointError), 4)
  {
    AccumulateSmall(0x04, 0x90, 0x90, 0x90);
    assert [0xF4, 0x90, 0x90, 0x90][1..4] == [0x90, 0x90, 0x90];
    Utf8DecodeWellFormed([0xF4, 0x90, 0x90, 0x90]);
  }

  /** A well-formed sequence encoding a surrogate raises Utf8DecodeError. */
  lemma Utf8DecodeSurrogateRejected()
    ensures Utf8Decode([0xED, 0xA0, 0x80]) == Scan(Err(Utf8DecodeError), 3)
  {
    AccumulateSmall(0x0D, 0xA0, 0x80, 0x80);
    assert [0xED, 0xA0, 0x80][1..3] == [0xA0, 0x80];
    Utf8DecodeWellFormed([0xED, 0xA0, 0x80]);
  }

  /** The decoder reads only the bytes the lead byte announces: once those are
      present, whatever follows cannot change the outcome. */
  lemma Utf8DecodeIsLocal(s: seq<byte>, t: seq<byte>)
    requires s != [] && SequenceLength(s[0]) <= |s|
    ensures Utf8Decode(s + t) == Utf8Decode(s)
  {
    var n := SequenceLength(s[0]);
    assert (s + t)[0] == s[0];
    if n > 0 {
      assert (s + t)[1..n] == s[1..n];
    }
  }

  /** Six more bits: the quotient and remainder by 64. */
  lemma SplitSix(x: nat)
    ensures (x / 64) * 64 + x % 64 == x
    ensures (x / 64) / 64 == x / 4096
    ensures (x / 4096) / 64 == x / 262144
  {
  }

  /** Encoding then decoding gives back every code point the encoder accepts
      that is not a surrogate, and consumes exactly the encoding. */
  lemma Utf8RoundTrip(cp: nat, rest: seq<byte>)
    requires cp < MAX_CODE_POINT && !IsSurrogate(cp)
    ensures CodePointToUtf8(cp).Ok?
    ensures Utf8Decode(CodePointToUtf8(cp).value + rest)
         == Scan(Ok(cp), |CodePointToUtf8(cp).value|)
  {
    var e := CodePointToUtf8(cp).value;
    Utf8DecodeIsLocal(e, rest);
    if cp < 0x80 {
      Utf8DecodeWellFormed(e);
    } else if cp < 0x800 {
      DecodeTwoByteEncoding(cp);
    } else if cp < 0x10000 {
      DecodeThreeByteEncoding(cp);
    } else {
      DecodeFourByteEncoding(cp);
    }
  }

  lemma DecodeTwoByteEncoding(cp: nat)
    requires 0x80 <= cp < 0x800
    ensures Utf8Decode(CodePointToUtf8(cp).value) == Scan(Ok(cp), 2)
  {
    var e := CodePointToUtf8(cp).value;
    SplitSix(cp);
    assert e[1..2] == [0x80 + cp % 64];
    AccumulateSmall(cp / 64, 0x80 + cp % 64, 0, 0);
    ContinuationBits(cp % 64);
    assert LeadBits(e[0]) == cp / 64;
    Utf8DecodeWellFormed(e);
  }

  lemma DecodeThreeByteEncoding(cp: nat)
    requires 0x800 <= cp < 0x10000 && !IsSurrogate(cp)
    ensures Utf8Decode(CodePointToUtf8(cp).value) == Scan(Ok(cp), 3)
  {
    var e := CodePointToUtf8(cp).value;
    var a, b, c := cp / 4096, (cp / 64) % 64, cp % 64;
    assert (a * 64 + b) * 64 + c == cp by {
      SplitSix(cp);
      SplitSix(cp / 64);
    }
    assert e == [0xE0 + a, 0x80 + b, 0x80 + c];
    assert e[1..3] == [0x80 + b, 0x80 + c];
    AccumulateSmall(a, 0x80 + b, 0x80 + c, 0);
    ContinuationBits(b);
    ContinuationBits(c);
    assert LeadBits(e[0]) == a;
    assert Accumulate(a, e[1..3]) == cp;
    Utf8DecodeWellFormed(e);
  }

  lemma DecodeFourByteEncoding(cp: nat)
    requires 0x10000 <= cp < MAX_CODE_POINT
    ensures Utf8Decode(CodePointToUtf8(cp).value) == Scan(Ok(cp), 4)
  {
    var e := CodePointToUtf8(cp).value;
    var a, b, c, d := cp / 262144, (cp / 4096) % 64, (cp / 64) % 64, cp % 64;
    assert ((a * 64 + b) * 64 + c) * 64 + d == cp by {
      SplitSix(cp);
      SplitSix(cp / 64);
      SplitSix(cp / 4096);
    }
    assert e == [0xF0 + a, 0x80 + b, 0x80 + c, 0x80 + d];
    assert e[1..4] == [0x80 + b, 0x80 + c, 0x80 + d];
    AccumulateSmall(a, 0x80 + b, 0x80 + c, 0x80 + d);
    ContinuationBits(b);
    ContinuationBits(c);
    ContinuationBits(d);
    assert LeadBits(e[0]) == a;
    assert Accumulate(a, e[1..4]) == cp;
    assert !IsSurrogate(cp);
    Utf8DecodeWellFormed(e);
  }

  /** A continuation byte built from six bits gives them back. */
  lemma ContinuationBits(x: nat)
    requires x < 64
    ensures (0x80 + x) % 64 == x
  {
  }

  /** The decoder has no minimum-value check: overlong encodings of U+0000 are
      accepted. */
  lemma OverlongFormsAccepted()
    ensures Utf8Decode([0xC0, 0x80]) == Scan(Ok(0), 2)
    ensures Utf8Decode([0xE0, 0x80, 0x80]) == Scan(Ok(0), 3)
    ensures CodePointToUtf8(0) == Ok([0])
  {
    AccumulateSmall(0, 0x80, 0x80, 0);
    assert [0xC0, 0x80][1..2] == [0x80];
    Utf8DecodeWellFormed([0xC0, 0x80]);
    assert [0xE0, 0x80, 0x80][1..3] == [0x80, 0x80];
    Utf8DecodeWellFormed([0xE0, 0x80, 0x80]);
  }

  /** The encoder's bound is `cp < 0x10FFFF`: U+10FFFF itself, which the decoder
      accepts, cannot be encoded. */
  lemma LastCodePointNotEncodable()
    ensures CodePointToUtf8(MAX_CODE_POINT) == Err(UnicodeCodePointError)
    ensures Utf8Decode([0xF4, 0x8F, 0xBF, 0xBF]) == Scan(Ok(MAX_CODE_POINT), 4)
  {
    AccumulateSmall(0x04, 0x8F, 0xBF, 0xBF);
    assert [0xF4, 0x8F, 0xBF, 0xBF][1..4] == [0x8F, 0xBF, 0xBF];
    Utf8DecodeWellFormed([0xF4, 0x8F, 0xBF, 0xBF]);
  }

  /** Joining is the inverse of the UTF-16 split of section 2.2 of RFC 2781:
      every supplementary code point is recovered from its pair. */
  lemma SurrogatePairInverse(cp: nat)
    requires 0x10000 <= cp <= MAX_CODE_POINT
    ensures SurrogatePairToCodePoint(0xD800 + (cp - 0x10000) / 1024,
                                     0xDC00 + (cp - 0x10000) % 1024) == Ok(cp)
  {
    var u := cp - 0x10000;
    assert u / 1024 <= 0x3FF;
  }

  /** The tracker's transition table: an error exactly above U+10FFFF or when
      "is a low surrogate" disagrees with "a low is pending"; otherwise a low is
      pending afterwards exactly after a high, and a completed code point is the
      argument itself or the joined pair. */
  lemma CheckStepTransitions(t: TrackerState, cp: nat)
    requires TrackerValid(t)
    ensures CheckStep(t, cp).Err? <==>
      cp > MAX_CODE_POINT || IsLowSurrogate(cp) != t.surrogateLowNeeded
    ensures CheckStep(t, cp).Err? ==> CheckStep(t, cp).error == UnicodeCodePointError
    ensures CheckStep(t, cp).Ok? ==>
      (CheckStep(t, cp).value.surrogateLowNeeded <==> IsHighSurrogate(cp))
    ensures CheckStep(t, cp).Ok? && IsLowSurrogate(cp) ==>
      CheckStep(t, cp).value.lastCodePoint
        == 0x10000 + (t.lastCodePoint - 0xD800) * 1024 + (cp - 0xDC00)
    ensures CheckStep(t, cp).Ok? && !IsSurrogate(cp) ==>
      CheckStep(t, cp).value.lastCodePoint == cp
  {
  }

  /** The "tick" for a character that is not a `\u` escape keeps an idle tracker
      idle, and fails exactly when a low surrogate is pending. */
  lemma TickOnIdle(t: TrackerState)
    ensures !t.surrogateLowNeeded ==> CheckStep(t, 0) == Ok(FRESH_TRACKER)
    ensures t.surrogateLowNeeded ==> CheckStep(t, 0) == Err(UnicodeCodePointError)
  {
  }

  /** The unit tests of the checker: a pair D800 DC00 completes U+10000; a lone
      low, a high after a high, a non-surrogate or the final tick after a high
      all throw. */
  lemma CheckerExamples()
    ensures CheckStep(FRESH_TRACKER, 0) == Ok(FRESH_TRACKER)
    ensures CheckStep(FRESH_TRACKER, 0xD800) == Ok(TrackerState(0xD800, true))
    ensures CheckStep(TrackerState(0xD800, true), 0xDC00) == Ok(TrackerState(0x10000, false))
    ensures CheckStep(FRESH_TRACKER, 0xDC00) == Err(UnicodeCodePointError)
    ensures CheckStep(TrackerState(0xD800, true), 0xD800) == Err(UnicodeCodePointError)
    ensures CheckStep(TrackerState(0xD800, true), 0) == Err(UnicodeCodePointError)
  {
  }
}
