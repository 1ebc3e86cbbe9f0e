/** Which string tokens the parser's string lexer accepts, stated without the
    lexer: a body made of printable UTF-8 characters and well-formed escapes,
    closed by a quote, whose `\u` escapes pair up as UTF-16 surrogates. */
module JsonStringGrammar {
  import opened Bytes
  import opened Exception
  import opened Utf8Codec
  import opened HexDigits
  import opened Utf8Validity
  import opened JsonGrammar
  import opened Utf8CodecProperties
  import JsonStringContentProperties

  /** The string body `s[q..r]` is a run of characters the lexer lets through:
      each one is either an unescaped UTF-8 character that is neither a quote,
      a backslash nor a control byte below 0x20, or a backslash followed by one
      of the escape letters, the letter `u` taking four hex digits after it. */
  predicate BodyOk(s: seq<byte>, q: nat, r: nat)
    requires q <= r <= |s|
    decreases r - q
  {
    if q == r then true
    else if s[q] == BACKSLASH then
      q + 1 < r && IsEscapeLetter(s[q + 1]) &&
      if s[q + 1] != LOWER_U then BodyOk(s, q + 2, r)
      else q + 6 <= r && (forall k :: q + 2 <= k < q + 6 ==> IsHex(s[k])) && BodyOk(s, q + 6, r)
    else
      s[q] != QUOTE && s[q] >= SPACE && Utf8Decode(s[q..]).result.Ok? &&
      q + Utf8Decode(s[q..]).pos <= r && BodyOk(s, q + Utf8Decode(s[q..]).pos, r)
  }

  /** The code units of the `\u` escapes of a well-formed body, in order. */
  function HexCodes(s: seq<byte>, q: nat, r: nat): (cps: seq<nat>)
    requires q <= r <= |s| && BodyOk(s, q, r)
    ensures forall i :: 0 <= i < |cps| ==> cps[i] < 0x10000
    decreases r - q
  {
    if q == r then []
    else if s[q] == BACKSLASH then
      if s[q + 1] != LOWER_U then HexCodes(s, q + 2, r)
      else
        var digits := s[q + 2..];
        assert forall i :: 0 <= i < 4 ==> IsHex(digits[i]);
        [HexSeqToCodePoint(digits).result.value] + HexCodes(s, q + 6, r)
    else HexCodes(s, q + Utf8Decode(s[q..]).pos, r)
  }

  /** The surrogate checker fed the code points `cps` one after another. */
  function CheckAll(t: TrackerState, cps: seq<nat>): (r: Result<TrackerState>)
    ensures r.Ok? && cps != [] ==> TrackerValid(r.value)
    decreases |cps|
  {
    if cps == [] then Ok(t)
    else
      var c := CheckStep(t, cps[0]);
      if c.Err? then Err(c.error) else CheckAll(c.value, cps[1..])
  }

  /** The checker accepts `cps` and then the closing tick with no low surrogate
      still awaited. */
  predicate PairsDone(t: TrackerState, cps: seq<nat>) {
    CheckAll(t, cps).Ok? && CheckStep(CheckAll(t, cps).value, 0).Ok?
  }

  /** UTF-16 pairing: every high surrogate is followed at once by a low one,
      and no low surrogate stands without the high one before it. */
  predicate WellPaired(cps: seq<nat>)
    decreases |cps|
  {
    if cps == [] then true
    else if IsHighSurrogate(cps[0]) then
      |cps| >= 2 && IsLowSurrogate(cps[1]) && WellPaired(cps[2..])
    else !IsLowSurrogate(cps[0]) && WellPaired(cps[1..])
  }

  /** The checker, started in a valid state, accepts a sequence of code units
      through the closing tick exactly when the sequence pairs up, after the
      low surrogate the state may still be waiting for. */
  lemma {:induction false} PairsDoneWellPaired(t: TrackerState, cps: seq<nat>)
    requires TrackerValid(t)
    requires forall i :: 0 <= i < |cps| ==> cps[i] <= MAX_CODE_POINT
    ensures PairsDone(t, cps) <==>
      if t.surrogateLowNeeded then cps != [] && IsLowSurrogate(cps[0]) && WellPaired(cps[1..])
      else WellPaired(cps)
    decreases |cps|
  {
    if cps != [] {
      var c := CheckStep(t, cps[0]);
      if c.Ok? {
        PairsDoneWellPaired(c.value, cps[1..]);
        if !t.surrogateLowNeeded && IsHighSurrogate(cps[0]) && |cps| >= 2 {
          assert cps[1..][1..] == cps[2..];
        }
      }
    }
  }

  /** `s[q..e]` is a body closed by the quote at `e - 1` whose `\u` escapes the
      checker in state `t` accepts through the closing tick. */
  predicate ClosedAt(s: seq<byte>, q: nat, e: nat, t: TrackerState) {
    q < e <= |s| && s[e - 1] == QUOTE && BodyOk(s, q, e - 1) && PairsDone(t, HexCodes(s, q, e - 1))
  }

  /** A raw character at `q` belongs to a closed body exactly when it is
      printable, decodes as UTF-8 and the body goes on after it. */
  lemma ClosedAfterRaw(s: seq<byte>, q: nat, e: nat, t: TrackerState)
    requires q < |s| && s[q] != QUOTE && s[q] != BACKSLASH
    ensures ClosedAt(s, q, e, t) <==>
      s[q] >= SPACE && Utf8Decode(s[q..]).result.Ok? && ClosedAt(s, q + Utf8Decode(s[q..]).pos, e, t)
  {
    var d := Utf8Decode(s[q..]);
    if s[q] >= SPACE && d.result.Ok? && q < e - 1 && e <= |s| && BodyOk(s, q, e - 1) {
      assert HexCodes(s, q, e - 1) == HexCodes(s, q + d.pos, e - 1);
    }
  }

  /** A backslash at `q` followed by an escape letter other than `u` belongs to
      a closed body exactly when the body goes on after the two bytes. */
  lemma ClosedAfterShortEscape(s: seq<byte>, q: nat, e: nat, t: TrackerState)
    requires q + 1 < |s| && s[q] == BACKSLASH && IsEscapeLetter(s[q + 1]) && s[q + 1] != LOWER_U
    ensures ClosedAt(s, q, e, t) <==> ClosedAt(s, q + 2, e, t)
  {
  }

  /** A `\u` escape at `q` belongs to a closed body exactly when its four hex
      digits are there, the checker accepts their code unit, and the body goes
      on after the six bytes from the checker's new state. */
  lemma ClosedAfterHexEscape(s: seq<byte>, q: nat, e: nat, t: TrackerState)
    requires q + 1 < |s| && s[q] == BACKSLASH && s[q + 1] == LOWER_U
    ensures ClosedAt(s, q, e, t) <==>
      var h := HexSeqToCodePoint(s[q + 2..]);
      h.result.Ok? && CheckStep(t, h.result.value).Ok? && ClosedAt(s, q + 6, e, CheckStep(t, h.result.value).value)
  {
    var h := HexSeqToCodePoint(s[q + 2..]);
    if q < e <= |s| && s[e - 1] == QUOTE && BodyOk(s, q, e - 1) {
      var digits := s[q + 2..];
      assert forall i :: 0 <= i < 4 ==> IsHex(digits[i]);
      var rest := HexCodes(s, q + 6, e - 1);
      assert HexCodes(s, q, e - 1) == [h.result.value] + rest;
      assert ([h.result.value] + rest)[1..] == rest;
    }
  }

  /** The lexer's scan from `q` ends at `e` exactly when `s[q..e]` is a closed
      body the checker accepts. The checker is only ticked after escapes, so the
      statement holds for any state once an escape was seen, and for the
      untouched checker before. */
  lemma {:induction false} ScanCharacterised(s: seq<byte>, q: nat, t: TrackerState, hexSeen: bool, e: nat)
    requires q <= |s| && (!hexSeen ==> t == FRESH_TRACKER)
    ensures StringScan(s, q, t, hexSeen) == Lexed(e) <==> ClosedAt(s, q, e, t)
    decreases |s| - q, 1
  {
    if q == |s| || s[q] == QUOTE {
    } else if s[q] != BACKSLASH {
      ScanRawCharacterised(s, q, t, hexSeen, e);
    } else if q + 1 < |s| && IsEscapeLetter(s[q + 1]) {
      if s[q + 1] != LOWER_U {
        ScanShortEscapeCharacterised(s, q, t, hexSeen, e);
      } else {
        ScanHexEscapeCharacterised(s, q, t, hexSeen, e);
      }
    } else {
      assert StringScan(s, q, t, hexSeen) == EscapeChar(s, q, t, hexSeen);
    }
  }

  lemma {:induction false} ScanRawCharacterised(s: seq<byte>, q: nat, t: TrackerState, hexSeen: bool, e: nat)
    requires q < |s| && s[q] != QUOTE && s[q] != BACKSLASH && (!hexSeen ==> t == FRESH_TRACKER)
    ensures StringScan(s, q, t, hexSeen) == Lexed(e) <==> ClosedAt(s, q, e, t)
    decreases |s| - q, 0
  {
    ClosedAfterRaw(s, q, e, t);
    assert StringScan(s, q, t, hexSeen) == RawChar(s, q, t, hexSeen);
    var d := Utf8Decode(s[q..]);
    if s[q] >= SPACE && d.result.Ok? {
      assert RawChar(s, q, t, hexSeen) == Ticked(s, q + d.pos, t, hexSeen);
      assert CheckStep(FRESH_TRACKER, 0) == Ok(FRESH_TRACKER);
      ScanCharacterised(s, q + d.pos, t, hexSeen, e);
    }
  }

  lemma {:induction false} ScanShortEscapeCharacterised(s: seq<byte>, q: nat, t: TrackerState, hexSeen: bool, e: nat)
    requires q + 1 < |s| && s[q] == BACKSLASH && IsEscapeLetter(s[q + 1]) && s[q + 1] != LOWER_U
    requires !hexSeen ==> t == FRESH_TRACKER
    ensures StringScan(s, q, t, hexSeen) == Lexed(e) <==> ClosedAt(s, q, e, t)
    decreases |s| - q, 0
  {
    assert StringScan(s, q, t, hexSeen) == EscapeChar(s, q, t, hexSeen) == Ticked(s, q + 2, t, hexSeen);
    assert CheckStep(FRESH_TRACKER, 0) == Ok(FRESH_TRACKER);
    assert Ticked(s, q + 2, t, hexSeen) == StringScan(s, q + 2, t, hexSeen);
    ClosedAfterShortEscape(s, q, e, t);
    ScanCharacterised(s, q + 2, t, hexSeen, e);
  }

  lemma {:induction false} ScanHexEscapeCharacterised(s: seq<byte>, q: nat, t: TrackerState, hexSeen: bool, e: nat)
    requires q + 1 < |s| && s[q] == BACKSLASH && s[q + 1] == LOWER_U
    requires !hexSeen ==> t == FRESH_TRACKER
    ensures StringScan(s, q, t, hexSeen) == Lexed(e) <==> ClosedAt(s, q, e, t)
    decreases |s| - q, 0
  {
    assert StringScan(s, q, t, hexSeen) == EscapeChar(s, q, t, hexSeen);
    ClosedAfterHexEscape(s, q, e, t);
    var h := HexSeqToCodePoint(s[q + 2..]);
    if h.result.Ok? && CheckStep(t, h.result.value).Ok? {
      ScanCharacterised(s, q + 6, CheckStep(t, h.result.value).value, true, e);
    }
  }

  /** No byte of a body is a control byte: raw characters are printable and
      their continuation bytes are at least 0x80, and escapes are made of
      printable letters and digits. */
  lemma {:induction false} BodyHasNoControlBytes(s: seq<byte>, q: nat, r: nat)
    requires q <= r <= |s| && BodyOk(s, q, r)
    ensures forall k :: q <= k < r ==> s[k] >= SPACE
    decreases r - q
  {
    if q < r {
      if s[q] == BACKSLASH {
        if s[q + 1] != LOWER_U {
          BodyHasNoControlBytes(s, q + 2, r);
        } else {
          BodyHasNoControlBytes(s, q + 6, r);
        }
      } else {
        var d := Utf8Decode(s[q..]);
        if d.pos > 1 {
          JsonStringContentProperties.MultiByteSequenceHasNoAscii(s[q..]);
        }
        BodyHasNoControlBytes(s, q + d.pos, r);
      }
    }
  }

  /** A run of bytes with no quote, backslash or control byte in it is a body
      exactly when it is valid UTF-8: between escapes, the lexer lets through
      the well-formed UTF-8 text and nothing else. */
  lemma {:induction false} PlainBodyIsUtf8(s: seq<byte>, q: nat, r: nat)
    requires q <= r <= |s|
    requires forall k :: q <= k < r ==> s[k] != QUOTE && s[k] != BACKSLASH && s[k] >= SPACE
    ensures BodyOk(s, q, r) <==> ValidUtf8(s[q..r])
    decreases r - q
  {
    if q < r {
      var d := Utf8Decode(s[q..]);
      var local := Utf8Decode(s[q..r]);
      assert s[q..r] + s[r..] == s[q..];
      assert s[q..r][0] == s[q];
      if d.result.Ok? && q + d.pos <= r {
        Utf8DecodeIsLocal(s[q..r], s[r..]);
        assert s[q..r][d.pos..] == s[q + d.pos..r];
        PlainBodyIsUtf8(s, q + d.pos, r);
      } else if local.result.Ok? {
        Utf8DecodeIsLocal(s[q..r], s[r..]);
      }
    }
  }

  /** The string token opened by the quote at `p` is lexed to end at `e`
      exactly when the bytes between the quotes form a body and its `\u`
      escapes pair up as UTF-16 surrogates. */
  lemma StringLexCharacterised(s: seq<byte>, p: nat, e: nat)
    requires p < |s| && s[p] == QUOTE
    ensures StringLex(s, p) == Lexed(e) <==>
      p + 1 < e <= |s| && s[e - 1] == QUOTE && BodyOk(s, p + 1, e - 1) &&
      WellPaired(HexCodes(s, p + 1, e - 1))
  {
    ScanCharacterised(s, p + 1, FRESH_TRACKER, false, e);
    if p + 1 < e <= |s| && BodyOk(s, p + 1, e - 1) {
      PairsDoneWellPaired(FRESH_TRACKER, HexCodes(s, p + 1, e - 1));
    }
  }

  /** Every byte between the quotes of a lexed string token is printable. */
  lemma StringLexNoControlBytes(s: seq<byte>, p: nat)
    requires p < |s| && s[p] == QUOTE && StringLex(s, p).Lexed?
    ensures forall k :: p < k < StringLex(s, p).end - 1 ==> s[k] >= SPACE
  {
    StringLexCharacterised(s, p, StringLex(s, p).end);
    BodyHasNoControlBytes(s, p + 1, StringLex(s, p).end - 1);
  }
}
