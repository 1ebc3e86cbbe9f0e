/** What the JSON string-content decoder and encoder promise, and where the two
    fail to be inverses. */
module JsonStringContentProperties {
  import opened Bytes
  import opened Exception
  import opened Utf8Codec
  import opened Utf8CodecProperties
  import opened HexDigits
  import opened JsonEscape
  import opened Utf8Validity
  import opened JsonStringContent

  /** The letters of the two-character escapes are the same in both directions:
      the encoder's letter for a byte is exactly the letter the decoder maps back
      to that byte, and none of them is 'u'. */
  lemma ShortEscapesInverse(b: byte, c: byte)
    ensures ShortEscape(b) == Some(c) <==> Unescape(c) == Some(b)
    ensures Unescape(LOWER_U) == None
  {
  }

  /** A byte of UTF-8 text below 0x80 is a sequence of its own. */
  lemma AsciiDecodesAlone(s: seq<byte>)
    requires s != [] && s[0] < 0x80
    ensures Utf8Decode(s) == Scan(Ok(s[0]), 1)
  {
    assert s[1..1] == [];
  }

  /** The bytes of a sequence longer than one are all at or above 0x80. */
  lemma MultiByteSequenceHasNoAscii(s: seq<byte>)
    requires s != [] && Utf8Decode(s).result.Ok? && Utf8Decode(s).pos > 1
    ensures forall j :: 0 <= j < Utf8Decode(s).pos ==> s[j] >= 0x80
  {
    var n := SequenceLength(s[0]);
    assert forall j :: 0 <= j < n - 1 ==> IsContinuation(s[1..n][j]);
  }

  // ---------------------------------------------------------------------------
  // The decoder
  // ---------------------------------------------------------------------------

  /** Bytes other than a backslash are copied as they are (the decoder does not
      reject raw controls or malformed UTF-8), whatever follows them. */
  lemma {:induction false} PlainBytesCopied(p: seq<byte>, rest: seq<byte>)
    requires forall i :: 0 <= i < |p| ==> p[i] != BACKSLASH
    ensures ContentToUtf8(p + rest, FRESH_TRACKER) == Prepend(p, ContentToUtf8(rest, FRESH_TRACKER))
    decreases |p|
  {
    if p == [] {
      assert p + rest == rest;
      PrependNothing(ContentToUtf8(rest, FRESH_TRACKER));
    } else {
      assert (p + rest)[1..] == p[1..] + rest;
      PlainBytesCopied(p[1..], rest);
      PrependTwice([p[0]], p[1..], ContentToUtf8(rest, FRESH_TRACKER));
      assert [p[0]] + p[1..] == p;
    }
  }

  /** In particular content without a backslash decodes to itself. */
  lemma PlainContentUnchanged(p: seq<byte>)
    requires forall i :: 0 <= i < |p| ==> p[i] != BACKSLASH
    ensures ContentToUtf8(p, FRESH_TRACKER) == Ok(p)
  {
    PlainBytesCopied(p, []);
    assert p + [] == p;
  }

  /** A backslash at the very end, and a backslash followed by anything but
      `" \ / b f n r t u`, throw JsonParseError. */
  lemma BadEscapesRejected(c: byte, rest: seq<byte>, t: TrackerState)
    ensures ContentToUtf8([BACKSLASH], t) == Err(JsonParseError)
    ensures Unescape(c).None? && c != LOWER_U ==>
      ContentToUtf8([BACKSLASH, c] + rest, t) == Err(JsonParseError)
  {
  }

  /** A high surrogate still pending at the end throws UnicodeCodePointError. */
  lemma PendingHighRejectedAtEnd(t: TrackerState)
    requires t.surrogateLowNeeded
    ensures ContentToUtf8([], t) == Err(UnicodeCodePointError)
  {
  }

  /** One `\uXXXX` escape: its four digits go to the tracker. */
  lemma HexEscapeStep(s: seq<byte>, t: TrackerState)
    requires |s| >= 6 && s[0] == BACKSLASH && s[1] == LOWER_U
    requires forall i :: 2 <= i < 6 ==> IsHex(s[i])
    ensures HexSeqToCodePoint(s[2..]) == Scan(Ok(HexValue(s[2..6])), 4)
    ensures HexValue(s[2..6])
      == ((HexToDec(s[2]) * 16 + HexToDec(s[3])) * 16 + HexToDec(s[4])) * 16 + HexToDec(s[5])
  {
    assert s[2..][..4] == s[2..6];
    FirstNonHexAt(s[2..6], 4);
    HexValueOfFour(s[2..6]);
  }

  /** The unit test: the escape for U+0041 decodes to "A". */
  lemma DecodeExampleLetterA()
    ensures ContentToUtf8([BACKSLASH, LOWER_U, 0x30, 0x30, 0x34, 0x31], FRESH_TRACKER) == Ok([0x41])
  {
    var s := [BACKSLASH, LOWER_U, 0x30, 0x30, 0x34, 0x31];
    HexEscapeStep(s, FRESH_TRACKER);
    assert HexValue(s[2..6]) == 0x41;
    assert CheckStep(FRESH_TRACKER, 0x41) == Ok(TrackerState(0x41, false));
    assert CodePointToUtf8(0x41) == Ok([0x41]);
    assert s[6..] == [];
    assert ContentToUtf8([], TrackerState(0x41, false)) == Ok([]);
    var a: seq<byte> := [0x41];
    assert ContentToUtf8(s, FRESH_TRACKER) == Prepend(a, ContentToUtf8(s[6..], TrackerState(0x41, false)));
    assert a + [] == a;
  }

  /** The low half DE00 completing a pending high half D83D. */
  lemma DecodeLowHalfExample()
    ensures ContentToUtf8([BACKSLASH, LOWER_U, 0x44, 0x45, 0x30, 0x30], TrackerState(0xD83D, true))
         == Ok([0xF0, 0x9F, 0x98, 0x80])
  {
    var s := [BACKSLASH, LOWER_U, 0x44, 0x45, 0x30, 0x30];
    HexEscapeStep(s, TrackerState(0xD83D, true));
    assert HexValue(s[2..6]) == 0xDE00;
    assert SurrogatePairToCodePoint(0xD83D, 0xDE00) == Ok(0x1F600);
    assert CheckStep(TrackerState(0xD83D, true), 0xDE00) == Ok(TrackerState(0x1F600, false));
    assert CodePointToUtf8(0x1F600) == Ok([0xF0, 0x9F, 0x98, 0x80]);
    assert s[6..] == [];
    assert ContentToUtf8([], TrackerState(0x1F600, false)) == Ok([]);
    var a: seq<byte> := [0xF0, 0x9F, 0x98, 0x80];
    assert ContentToUtf8(s, TrackerState(0xD83D, true)) == Prepend(a, ContentToUtf8(s[6..], TrackerState(0x1F600, false)));
    assert a + [] == a;
  }

  /** A surrogate pair written as two escapes (D83D then DE00) is joined into
      U+1F600, whose UTF-8 form is F0 9F 98 80. */
  lemma DecodeExampleSurrogatePair()
    ensures ContentToUtf8([BACKSLASH, LOWER_U, 0x44, 0x38, 0x33, 0x44,
                           BACKSLASH, LOWER_U, 0x44, 0x45, 0x30, 0x30], FRESH_TRACKER)
         == Ok([0xF0, 0x9F, 0x98, 0x80])
  {
    var s := [BACKSLASH, LOWER_U, 0x44, 0x38, 0x33, 0x44,
              BACKSLASH, LOWER_U, 0x44, 0x45, 0x30, 0x30];
    HexEscapeStep(s, FRESH_TRACKER);
    assert HexValue(s[2..6]) == 0xD83D;
    assert CheckStep(FRESH_TRACKER, 0xD83D) == Ok(TrackerState(0xD83D, true));
    assert s[6..] == [BACKSLASH, LOWER_U, 0x44, 0x45, 0x30, 0x30];
    DecodeLowHalfExample();
  }

  /** The escapes DBFF then DFFF are a well-formed pair for U+10FFFF, which the encoder
      refuses: the decoder throws UnicodeCodePointError. */
  lemma DecodeExampleLastCodePoint()
    ensures ContentToUtf8([BACKSLASH, LOWER_U, 0x44, 0x42, 0x46, 0x46,
                           BACKSLASH, LOWER_U, 0x44, 0x46, 0x46, 0x46], FRESH_TRACKER)
         == Err(UnicodeCodePointError)
  {
    var s := [BACKSLASH, LOWER_U, 0x44, 0x42, 0x46, 0x46,
              BACKSLASH, LOWER_U, 0x44, 0x46, 0x46, 0x46];
    HexEscapeStep(s, FRESH_TRACKER);
    HexEscapeStep(s[6..], TrackerState(0xDBFF, true));
  }

  /** `\uD800x\uDC00`: the plain byte between the halves of a pair is rejected
      by the tick (the parser's string lexer accepts this input). */
  lemma DecodeExampleInterruptedPair()
    ensures ContentToUtf8([BACKSLASH, LOWER_U, 0x44, 0x38, 0x30, 0x30, 0x78,
                           BACKSLASH, LOWER_U, 0x44, 0x43, 0x30, 0x30], FRESH_TRACKER)
         == Err(UnicodeCodePointError)
  {
    var s := [BACKSLASH, LOWER_U, 0x44, 0x38, 0x30, 0x30, 0x78,
              BACKSLASH, LOWER_U, 0x44, 0x43, 0x30, 0x30];
    HexEscapeStep(s, FRESH_TRACKER);
  }

  // ---------------------------------------------------------------------------
  // The encoder
  // ---------------------------------------------------------------------------

  /** The encoder succeeds exactly on valid UTF-8 (what `is_utf8` accepts). */
  lemma {:induction false} ContentFromUtf8OkIffValid(s: seq<byte>)
    ensures ContentFromUtf8(s).Ok? <==> ValidUtf8(s)
    decreases |s|
  {
    if s != [] {
      if ShortEscape(s[0]).Some? || s[0] < SPACE || s[0] == DEL {
        AsciiDecodesAlone(s);
        ContentFromUtf8OkIffValid(s[1..]);
      } else if Utf8Decode(s).result.Ok? {
        ContentFromUtf8OkIffValid(s[Utf8Decode(s).pos..]);
      }
    }
  }

  /** The bytes of valid UTF-8 whose escapes the decoder reverses: every control
      below 0x20 has a two-character escape or is NUL or 0x04 (whose `\u00`
      escapes are the right ones), and there is no DEL. */
  predicate NoLossyControls(s: seq<byte>) {
    forall i :: 0 <= i < |s| ==>
      (s[i] < SPACE ==> ShortEscape(s[i]).Some? || s[i] == 0 || s[i] == 4) && s[i] != DEL
  }

  /** Decoding what the encoder wrote gives back the input, for valid UTF-8
      without the controls that go through the `\u` fallback. */
  lemma {:induction false} ContentRoundTrip(s: seq<byte>)
    requires ValidUtf8(s) && NoLossyControls(s)
    ensures ContentFromUtf8(s).Ok?
    ensures ContentToUtf8(ContentFromUtf8(s).value, FRESH_TRACKER) == Ok(s)
    decreases |s|
  {
    ContentFromUtf8OkOnValid(s);
    if s != [] {
      var n := ChunkLength(s);
      ContentRoundTrip(s[n..]);
      if ShortEscape(s[0]).Some? {
        EscapedByteRoundTrip(s);
      } else if s[0] < SPACE {
        HexEscapedByteRoundTrip(s);
      } else {
        assert !(s[0] < SPACE || s[0] == DEL);
        SequenceRoundTrip(s);
      }
    }
  }

  /** What the encoder takes from the front of `s` in one step: one byte that
      gets an escape, or one whole UTF-8 sequence. The rest is again valid
      UTF-8 without lossy controls. */
  lemma ChunkLength(s: seq<byte>) returns (n: nat)
    requires s != [] && ValidUtf8(s) && NoLossyControls(s)
    ensures 0 < n <= |s|
    ensures n == if ShortEscape(s[0]).Some? || s[0] < SPACE then 1 else Utf8Decode(s).pos
    ensures ValidUtf8(s[n..]) && NoLossyControls(s[n..])
  {
    if ShortEscape(s[0]).Some? || s[0] < SPACE {
      AsciiDecodesAlone(s);
      n := 1;
    } else {
      n := Utf8Decode(s).pos;
    }
    assert forall i :: 0 <= i < |s[n..]| ==> s[n..][i] == s[n + i];
  }

  /** A byte with a two-character escape comes back from its escape, in front
      of whatever the rest decodes to. */
  lemma EscapedByteRoundTrip(s: seq<byte>)
    requires s != [] && ShortEscape(s[0]).Some?
    requires ContentFromUtf8(s[1..]).Ok?
    requires ContentToUtf8(ContentFromUtf8(s[1..]).value, FRESH_TRACKER) == Ok(s[1..])
    ensures ContentFromUtf8(s).Ok?
    ensures ContentToUtf8(ContentFromUtf8(s).value, FRESH_TRACKER) == Ok(s)
  {
    var rest := ContentFromUtf8(s[1..]).value;
    var enc := ContentFromUtf8(s).value;
    assert enc == [BACKSLASH, ShortEscape(s[0]).value] + rest;
    assert enc[2..] == rest;
    ShortEscapesInverse(s[0], ShortEscape(s[0]).value);
    assert [s[0]] + s[1..] == s;
  }

  /** NUL and 0x04 come back from their `\u0000` and `\u0004` escapes, in front
      of whatever the rest decodes to. */
  lemma HexEscapedByteRoundTrip(s: seq<byte>)
    requires s != [] && (s[0] == 0 || s[0] == 4)
    requires ContentFromUtf8(s[1..]).Ok?
    requires ContentToUtf8(ContentFromUtf8(s[1..]).value, FRESH_TRACKER) == Ok(s[1..])
    ensures ContentFromUtf8(s).Ok?
    ensures ContentToUtf8(ContentFromUtf8(s).value, FRESH_TRACKER) == Ok(s)
  {
    var b := s[0];
    var rest := ContentFromUtf8(s[1..]).value;
    var esc: seq<byte> := [BACKSLASH, LOWER_U, DIGIT_0, DIGIT_0, DIGIT_0, DIGIT_0 + b];
    ZeroFourEscapeBytes(b);
    assert ContentFromUtf8(s) == Ok(esc + rest);
    ZeroFourEscapeDecodes(b, rest);
    assert [b] + s[1..] == s;
  }

  /** The encoder writes NUL and 0x04 as `\u0000` and `\u0004`. */
  lemma ZeroFourEscapeBytes(b: byte)
    requires b == 0 || b == 4
    ensures ShortEscape(b).None? && b < SPACE
    ensures EscapeBytes(b) == [BACKSLASH, LOWER_U, DIGIT_0, DIGIT_0, DIGIT_0, DIGIT_0 + b]
  {
    EscapeOfAsciiByte(b);
  }

  /** `\u0000` or `\u0004` in front of `rest` decodes to its byte in front of
      what `rest` decodes to. */
  lemma ZeroFourEscapeDecodes(b: byte, rest: seq<byte>)
    requires b == 0 || b == 4
    ensures ContentToUtf8([BACKSLASH, LOWER_U, DIGIT_0, DIGIT_0, DIGIT_0, DIGIT_0 + b] + rest, FRESH_TRACKER)
         == Prepend([b], ContentToUtf8(rest, FRESH_TRACKER))
  {
    var enc := [BACKSLASH, LOWER_U, DIGIT_0, DIGIT_0, DIGIT_0, DIGIT_0 + b] + rest;
    HexEscapeStep(enc, FRESH_TRACKER);
    assert HexValue(enc[2..6]) == b;
    assert CheckStep(FRESH_TRACKER, b) == Ok(TrackerState(b, false));
    assert CodePointToUtf8(b) == Ok([b]);
    assert enc[6..] == rest;
    IdleTrackerForgets(rest, b);
  }

  /** A checker that awaits no low surrogate decodes the rest as a fresh one:
      the last code point only matters to a pending high surrogate. */
  lemma IdleTrackerForgets(s: seq<byte>, last: nat)
    ensures ContentToUtf8(s, TrackerState(last, false)) == ContentToUtf8(s, FRESH_TRACKER)
  {
    forall cp: nat
      ensures CheckStep(TrackerState(last, false), cp) == CheckStep(FRESH_TRACKER, cp)
    {
    }
  }

  /** A UTF-8 sequence the encoder copies is copied back by the decoder, in
      front of whatever the rest decodes to. */
  lemma SequenceRoundTrip(s: seq<byte>)
    requires s != [] && ShortEscape(s[0]).None? && !(s[0] < SPACE || s[0] == DEL)
    requires Utf8Decode(s).result.Ok?
    requires var n := Utf8Decode(s).pos;
      ContentFromUtf8(s[n..]).Ok? && ContentToUtf8(ContentFromUtf8(s[n..]).value, FRESH_TRACKER) == Ok(s[n..])
    ensures ContentFromUtf8(s).Ok?
    ensures ContentToUtf8(ContentFromUtf8(s).value, FRESH_TRACKER) == Ok(s)
  {
    var n := Utf8Decode(s).pos;
    var chunk := s[..n];
    TakeThenDrop(s, n);
    var rest := ContentFromUtf8(s[n..]).value;
    assert ContentFromUtf8(s).value == chunk + rest;
    SequenceHasNoBackslash(s);
    PlainBytesCopied(chunk, rest);
  }

  lemma TakeThenDrop(s: seq<byte>, n: nat)
    requires n <= |s|
    ensures s[..n] + s[n..] == s
  {
  }

  /** A UTF-8 sequence the encoder copies holds no backslash. */
  lemma SequenceHasNoBackslash(s: seq<byte>)
    requires s != [] && ShortEscape(s[0]).None? && Utf8Decode(s).result.Ok?
    ensures forall i :: 0 <= i < Utf8Decode(s).pos ==> s[i] != BACKSLASH
  {
    if Utf8Decode(s).pos > 1 {
      MultiByteSequenceHasNoAscii(s);
    } else {
      assert ShortEscape(BACKSLASH).Some?;
    }
  }

  /** The round trip fails for the other controls: U+001F is written as
      `\u0004`, which decodes to U+0004. */
  lemma ContentRoundTripFailsForUnitSeparator()
    ensures ContentFromUtf8([0x1F]) == Ok([BACKSLASH, LOWER_U, 0x30, 0x30, 0x30, 0x34])
    ensures ContentToUtf8([BACKSLASH, LOWER_U, 0x30, 0x30, 0x30, 0x34], FRESH_TRACKER) == Ok([0x04])
  {
    EscapeExamples();
    var u: seq<byte> := [0x1F];
    var e: seq<byte> := [BACKSLASH, LOWER_U, 0x30, 0x30, 0x30, 0x34];
    assert u[1..] == [];
    assert EscapeBytes(0x1F) == e;
    assert ContentFromUtf8(u) == Prepend(e, ContentFromUtf8([]));
    assert e + [] == e;
    var s := [BACKSLASH, LOWER_U, 0x30, 0x30, 0x30, 0x34];
    HexEscapeStep(s, FRESH_TRACKER);
    assert HexValue(s[2..6]) == 4;
    assert CheckStep(FRESH_TRACKER, 4) == Ok(TrackerState(4, false));
    assert s[6..] == [];
    assert ContentToUtf8([], TrackerState(4, false)) == Ok([]);
    var d: seq<byte> := [4];
    assert ContentToUtf8(s, FRESH_TRACKER) == Prepend(d, ContentToUtf8(s[6..], TrackerState(4, false)));
    assert d + [] == d;
  }

  /** Printable ASCII other than `" \ /` is copied by the encoder. */
  lemma {:induction false} PlainAsciiEncodedAsIs(s: seq<byte>)
    requires PlainAscii(s)
    ensures ContentFromUtf8(s) == Ok(s)
    decreases |s|
  {
    if s != [] {
      PlainAsciiHead(s);
      PlainAsciiEncodedAsIs(s[1..]);
      assert [s[0]] + s[1..] == s;
    }
  }

  /** The first byte of plain ASCII text is copied on its own. */
  lemma PlainAsciiHead(s: seq<byte>)
    requires s != [] && PlainAscii(s)
    ensures PlainAscii(s[1..])
    ensures ContentFromUtf8(s) == Prepend([s[0]], ContentFromUtf8(s[1..]))
  {
    AsciiDecodesAlone(s);
    assert s[..1] == [s[0]];
  }

  /** The encoder works piece by piece: a valid prefix is encoded on its own. */
  lemma {:induction false} ContentFromUtf8Append(a: seq<byte>, b: seq<byte>)
    requires ValidUtf8(a)
    ensures ContentFromUtf8(a).Ok?
    ensures ContentFromUtf8(a + b) == Prepend(ContentFromUtf8(a).value, ContentFromUtf8(b))
    decreases |a|
  {
    ContentFromUtf8OkOnValid(a);
    if a == [] {
      assert a + b == b;
      PrependNothing(ContentFromUtf8(b));
    } else {
      var ab := a + b;
      assert ab[0] == a[0];
      if ShortEscape(a[0]).Some? || a[0] < SPACE || a[0] == DEL {
        AsciiDecodesAlone(a);
        assert ab[1..] == a[1..] + b;
        ContentFromUtf8Append(a[1..], b);
        var head := if ShortEscape(a[0]).Some? then [BACKSLASH, ShortEscape(a[0]).value] else EscapeBytes(a[0]);
        PrependTwice(head, ContentFromUtf8(a[1..]).value, ContentFromUtf8(b));
      } else {
        var n := Utf8Decode(a).pos;
        DecodeOfPrefix(a, b);
        assert ab[..n] == a[..n];
        ContentFromUtf8Append(a[n..], b);
        PrependTwice(a[..n], ContentFromUtf8(a[n..]).value, ContentFromUtf8(b));
      }
    }
  }

  /** Printable ASCII with no escape needed. */
  predicate PlainAscii(s: seq<byte>) {
    forall i :: 0 <= i < |s| ==> SPACE <= s[i] < DEL && s[i] != QUOTE && s[i] != BACKSLASH && s[i] != SLASH
  }

  /** A byte with a two-character escape is written as that escape. */
  lemma ShortEscapedHead(b: byte, t: seq<byte>)
    requires ShortEscape(b).Some?
    ensures ContentFromUtf8([b] + t) == Prepend([BACKSLASH, ShortEscape(b).value], ContentFromUtf8(t))
  {
    assert ([b] + t)[1..] == t;
  }

  /** A quote between plain ASCII text is the only byte that gets a backslash. */
  lemma QuoteEscapedInPlainText(a: seq<byte>, t: seq<byte>)
    requires PlainAscii(a) && PlainAscii(t)
    ensures ContentFromUtf8(a + [QUOTE] + t) == Ok(a + [BACKSLASH, QUOTE] + t)
  {
    var q: seq<byte> := [QUOTE];
    var bq: seq<byte> := [BACKSLASH, QUOTE];
    AsciiIsValid(a);
    PlainAsciiEncodedAsIs(a);
    PlainAsciiEncodedAsIs(t);
    ShortEscapedHead(QUOTE, t);
    ContentFromUtf8Append(a, q + t);
    assert a + q + t == a + (q + t);
    PrependTwice(a, bq, Ok(t));
    assert a + (bq + t) == a + bq + t;
  }

  /** The unit test of the safe encoder: `bad json = "truncated` becomes
      `bad json = \"truncated`. */
  lemma SafeEncodingExample()
    ensures ValidUtf8(BAD_JSON + [QUOTE] + TRUNCATED)
    ensures ContentFromUtf8(BAD_JSON + [QUOTE] + TRUNCATED) == Ok(BAD_JSON + [BACKSLASH, QUOTE] + TRUNCATED)
  {
    QuoteEscapedInPlainText(BAD_JSON, TRUNCATED);
    AsciiIsValid(BAD_JSON + [QUOTE] + TRUNCATED);
  }

  /** The bytes of `bad json = ` and of `truncated`. */
  const BAD_JSON: seq<byte> := [0x62, 0x61, 0x64, SPACE, 0x6A, 0x73, 0x6F, LOWER_N, SPACE, 0x3D, SPACE]
  const TRUNCATED: seq<byte> := [LOWER_T, LOWER_R, LOWER_U, LOWER_N, 0x63, 0x61, LOWER_T, LOWER_E, 0x64]

  /** ASCII text is valid UTF-8. */
  lemma {:induction false} AsciiIsValid(s: seq<byte>)
    requires forall i :: 0 <= i < |s| ==> s[i] < 0x80
    ensures ValidUtf8(s)
    decreases |s|
  {
    if s != [] {
      AsciiDecodesAlone(s);
      AsciiIsValid(s[1..]);
    }
  }
}
