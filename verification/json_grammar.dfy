/** The JSON text grammar that include/flumps/detail/json_parser_impl.h accepts,
    written as recursive descent over the input bytes: the lexers for
    whitespace, numbers and strings, and one function per grammar rule, each
    giving the events it reports and where it stops (or the offset where the
    parser throws). The parser itself keeps an explicit stack instead of
    recursing; JsonParser proves that it produces exactly these runs. */
module JsonGrammar {
  import opened Bytes
  import opened Exception
  import opened Utf8Codec
  import opened HexDigits
  import opened JsonEvents

  // ---------------------------------------------------------------------------
  // Lexers
  // ---------------------------------------------------------------------------

  /** `is_whitespace`: the four insignificant whitespace bytes of section 2 of
      RFC 8259. */
  predicate IsWhitespace(b: byte) {
    b == SPACE || b == TAB || b == CR || b == LF
  }

  /** Where `chomp_whitespace` stops: the first byte at or after `p` that is not
      whitespace, or the end. */
  function SkipWs(s: seq<byte>, p: nat): (q: nat)
    requires p <= |s|
    ensures p <= q <= |s|
    ensures q < |s| ==> !IsWhitespace(s[q])
    decreases |s| - p
  {
    if p < |s| && IsWhitespace(s[p]) then SkipWs(s, p + 1) else p
  }

  /** A lexer's outcome: the offset just past the token, or the offset at which
      the parser throws. */
  datatype Lex = Lexed(end: nat) | LexError(offset: nat)

  /** Where a run of decimal digits starting at `p` ends. */
  function DigitsEnd(s: seq<byte>, p: nat): (q: nat)
    requires p <= |s|
    ensures p <= q <= |s|
    ensures q < |s| ==> !IsDec(s[q])
    decreases |s| - p
  {
    if p < |s| && IsDec(s[p]) then DigitsEnd(s, p + 1) else p
  }

  /** `parse_number` from `p`, where the caller has seen '-' or a digit: the
      integer part, in which a leading '0' is the whole part (so "01" stops
      after the "0"), then the optional fraction and exponent. */
  function NumberLex(s: seq<byte>, p: nat): (r: Lex)
    requires p < |s| && (s[p] == MINUS || IsDec(s[p]))
    ensures r.Lexed? ==> p < r.end <= |s|
    ensures r.LexError? ==> p < r.offset <= |s|
  {
    var q := if s[p] == MINUS then p + 1 else p;
    if q == |s| then LexError(q)
    else if !IsDec(s[q]) then LexError(q)
    else FractionLex(s, if s[q] == DIGIT_0 then q + 1 else DigitsEnd(s, q + 1))
  }

  /** From the end `i` of the integer part: a '.' needs at least one digit
      after it. */
  function FractionLex(s: seq<byte>, i: nat): (r: Lex)
    requires i <= |s|
    ensures r.Lexed? ==> i <= r.end <= |s|
    ensures r.LexError? ==> i < r.offset <= |s|
  {
    if i == |s| then Lexed(i)
    else if s[i] != DOT then ExponentLex(s, i)
    else if i + 1 == |s| then LexError(i + 1)
    else if !IsDec(s[i + 1]) then LexError(i + 1)
    else ExponentLex(s, DigitsEnd(s, i + 2))
  }

  /** From the end `f` of the fraction: an 'e' or 'E', an optional sign and at
      least one digit. */
  function ExponentLex(s: seq<byte>, f: nat): (r: Lex)
    requires f <= |s|
    ensures r.Lexed? ==> f <= r.end <= |s|
    ensures r.LexError? ==> f < r.offset <= |s|
  {
    if f == |s| then Lexed(f)
    else if s[f] != LOWER_E && s[f] != UPPER_E then Lexed(f)
    else
      var j := f + 1;
      if j == |s| then LexError(j)
      else
        var k := if s[j] == MINUS || s[j] == PLUS then j + 1 else j;
        if k == |s| then LexError(k)
        else if !IsDec(s[k]) then LexError(k)
        else Lexed(DigitsEnd(s, k + 1))
  }

  /** The bytes `parse_string` accepts after a backslash. */
  predicate IsEscapeLetter(b: byte) {
    b == QUOTE || b == BACKSLASH || b == SLASH || b == LOWER_B || b == LOWER_F
    || b == LOWER_N || b == LOWER_R || b == LOWER_T || b == LOWER_U
  }

  /** The loop of `parse_string` from offset `q`, with the surrogate checker in
      state `t`. `hexSeen` is `last_cp_was_hex_seq`: once a `\u` escape has been
      read it stays set for the rest of the string, and from then on the loop
      no longer ticks the checker after other characters. */
  function StringScan(s: seq<byte>, q: nat, t: TrackerState, hexSeen: bool): (r: Lex)
    requires q <= |s|
    ensures r.Lexed? ==> q < r.end <= |s| && s[r.end - 1] == QUOTE
    ensures r.LexError? ==> q <= r.offset <= |s|
    decreases |s| - q, 2
  {
    if q == |s| || s[q] == QUOTE then
      // the last tick, then the terminator
      if CheckStep(t, 0).Err? || q == |s| then LexError(q) else Lexed(q + 1)
    else StringChar(s, q, t, hexSeen)
  }

  /** One pass of the loop at a byte `s[q]` that is not the closing quote. */
  function StringChar(s: seq<byte>, q: nat, t: TrackerState, hexSeen: bool): (r: Lex)
    requires q < |s| && s[q] != QUOTE
    ensures r.Lexed? ==> q < r.end <= |s| && s[r.end - 1] == QUOTE
    ensures r.LexError? ==> q <= r.offset <= |s|
    decreases |s| - q, 1
  {
    if s[q] != BACKSLASH then RawChar(s, q, t, hexSeen) else EscapeChar(s, q, t, hexSeen)
  }

  /** A character that is not an escape: a control byte is refused, anything
      else must decode as UTF-8. */
  function RawChar(s: seq<byte>, q: nat, t: TrackerState, hexSeen: bool): (r: Lex)
    requires q < |s| && s[q] != QUOTE && s[q] != BACKSLASH
    ensures r.Lexed? ==> q < r.end <= |s| && s[r.end - 1] == QUOTE
    ensures r.LexError? ==> q <= r.offset <= |s|
    decreases |s| - q, 0
  {
    if s[q] < SPACE then LexError(q)
    else
      var d := Utf8Decode(s[q..]);
      if d.result.Err? then LexError(q + d.pos) else Ticked(s, q + d.pos, t, hexSeen)
  }

  /** An escape from its backslash at `q`: one of the escape letters, and for
      `u` four hex digits whose code point goes through the surrogate
      checker. */
  function EscapeChar(s: seq<byte>, q: nat, t: TrackerState, hexSeen: bool): (r: Lex)
    requires q < |s| && s[q] == BACKSLASH
    ensures r.Lexed? ==> q < r.end <= |s| && s[r.end - 1] == QUOTE
    ensures r.LexError? ==> q <= r.offset <= |s|
    decreases |s| - q, 0
  {
    if q + 1 == |s| then LexError(q + 1)
    else if !IsEscapeLetter(s[q + 1]) then LexError(q + 1)
    else if s[q + 1] != LOWER_U then Ticked(s, q + 2, t, hexSeen)
    else
      var h := HexSeqToCodePoint(s[q + 2..]);
      if h.result.Err? then LexError(q + 2 + h.pos)
      else
        var c := CheckStep(t, h.result.value);
        if c.Err? then LexError(q + 6) else StringScan(s, q + 6, c.value, true)
  }

  /** The tick at the bottom of the `parse_string` loop, which only happens
      while no `\u` escape has been read. */
  function Ticked(s: seq<byte>, q: nat, t: TrackerState, hexSeen: bool): (r: Lex)
    requires q <= |s|
    ensures r.Lexed? ==> q < r.end <= |s| && s[r.end - 1] == QUOTE
    ensures r.LexError? ==> q <= r.offset <= |s|
    decreases |s| - q, 3
  {
    if hexSeen then StringScan(s, q, t, true)
    else
      var c := CheckStep(t, 0);
      if c.Err? then LexError(q) else StringScan(s, q, c.value, false)
  }

  /** `parse_string` from the opening quote at `p`. */
  function StringLex(s: seq<byte>, p: nat): (r: Lex)
    requires p < |s| && s[p] == QUOTE
    ensures r.Lexed? ==> p + 2 <= r.end <= |s| && s[r.end - 1] == QUOTE
    ensures r.LexError? ==> p < r.offset <= |s|
  {
    StringScan(s, p + 1, FRESH_TRACKER, false)
  }

  const TRUE_BYTES: seq<byte> := [LOWER_T, LOWER_R, LOWER_U, LOWER_E]
  const NULL_BYTES: seq<byte> := [LOWER_N, LOWER_U, LOWER_L, LOWER_L]
  const FALSE_BYTES: seq<byte> := [LOWER_F, LOWER_A, LOWER_L, LOWER_S, LOWER_E]

  /** `(end - pos) >= |w| && strncmp(w, pos, |w|) == 0` for a literal `w`
      without NUL bytes. */
  predicate LiteralAt(s: seq<byte>, p: nat, w: seq<byte>)
    requires p <= |s|
  {
    |s| - p >= |w| && s[p..p + |w|] == w
  }

  // ---------------------------------------------------------------------------
  // Runs of the grammar rules
  // ---------------------------------------------------------------------------

  /** What a piece of parsing reports: its events in order, then where it stops
      when `ok`, or the offset of the error it throws when not. */
  datatype Run = Run(events: seq<Event>, pos: nat, ok: bool)

  /** A run preceded by events already reported. */
  function Prefix(evs: seq<Event>, r: Run): (q: Run)
    ensures q.events == evs + r.events && q.pos == r.pos && q.ok == r.ok
  {
    Run(evs + r.events, r.pos, r.ok)
  }

  /** A string, number or literal value at `p` (not at the end, not a bracket). */
  function Primitive(s: seq<byte>, p: nat): (r: Run)
    requires p < |s|
    ensures p <= r.pos <= |s|
    ensures r.ok ==> p < r.pos && |r.events| == 1 && r.events[0].PrimitiveValue?
    ensures !r.ok ==> r.events == []
  {
    if s[p] == QUOTE then
      match StringLex(s, p)
      case LexError(o) => Run([], o, false)
      case Lexed(e) => Run([PrimitiveValue(String, p + 1, e - p - 2)], e, true)
    else if s[p] == MINUS || IsDec(s[p]) then
      match NumberLex(s, p)
      case LexError(o) => Run([], o, false)
      case Lexed(e) => Run([PrimitiveValue(Number, p, e - p)], e, true)
    else if LiteralAt(s, p, TRUE_BYTES) then Run([PrimitiveValue(True, p, 4)], p + 4, true)
    else if LiteralAt(s, p, NULL_BYTES) then Run([PrimitiveValue(Null, p, 4)], p + 4, true)
    else if LiteralAt(s, p, FALSE_BYTES) then Run([PrimitiveValue(False, p, 5)], p + 5, true)
    else Run([], p, false)
  }

  /** `parse_member_key` from `q`: whitespace, a string key (reported without its
      quotes), whitespace and the colon, after which it stops. */
  function MemberKey(s: seq<byte>, q: nat): (r: Run)
    requires q <= |s|
    ensures q <= r.pos <= |s|
    ensures r.ok ==> q + 3 <= r.pos
    ensures |r.events| <= 1
    ensures r.ok ==> |r.events| == 1
    ensures r.events != [] ==> r.events[0].ObjectKey?
  {
    var k := SkipWs(s, q);
    if k == |s| || s[k] != QUOTE then Run([], k, false)
    else
      match StringLex(s, k)
      case LexError(o) => Run([], o, false)
      case Lexed(e) =>
        var key := [ObjectKey(k + 1, e - k - 2)];
        var a := SkipWs(s, e);
        if a == |s| || s[a] != COLON then Run(key, a, false) else Run(key, a + 1, true)
  }

  /** One element (`parse_element`): whitespace, a value, whitespace. `d` is the
      number of frames on the parser's stack while it is read, its own included. */
  function Element(s: seq<byte>, L: nat, p: nat, d: nat): (r: Run)
    requires p <= |s|
    ensures p <= r.pos <= |s|
    ensures r.ok ==> p < r.pos
    decreases |s| - p, 5
  {
    var v := Value(s, L, SkipWs(s, p), d);
    if !v.ok then v else Run(v.events, SkipWs(s, v.pos), true)
  }

  /** One value (`parse_value`). At the end of the input it throws "value
      expected". */
  function Value(s: seq<byte>, L: nat, p: nat, d: nat): (r: Run)
    requires p <= |s|
    ensures p <= r.pos <= |s|
    ensures r.ok ==> p < r.pos
    decreases |s| - p, 4
  {
    if p == |s| then Run([], p, false)
    else if s[p] == LBRACE then ObjectValue(s, L, p, d)
    else if s[p] == LBRACKET then ArrayValue(s, L, p, d)
    else Primitive(s, p)
  }

  /** An object from its '{' at `p` (`parse_object`). The empty object "{}"
      reads no member and so pushes no frame. */
  function ObjectValue(s: seq<byte>, L: nat, p: nat, d: nat): (r: Run)
    requires p < |s|
    ensures p <= r.pos <= |s|
    ensures r.ok ==> p < r.pos
    decreases |s| - p, 3
  {
    var q := SkipWs(s, p + 1);
    if q < |s| && s[q] == RBRACE then Run([ObjectStart(p), ObjectEnd(p, q + 1 - p)], q + 1, true)
    else Prefix([ObjectStart(p)], Members(s, L, q, d, p))
  }

  /** A member from `q` and everything after it up to the object's end: the key,
      then the rest of the member. */
  function Members(s: seq<byte>, L: nat, q: nat, d: nat, start: nat): (r: Run)
    requires start < q <= |s|
    ensures q <= r.pos <= |s|
    ensures r.ok ==> q < r.pos
    decreases |s| - q, 2
  {
    var k := MemberKey(s, q);
    if !k.ok then k else MemberValue(s, L, k, d, start)
  }

  /** A member after its key `k` was read: the depth check of the member's
      frame, the member's element, and then a ',' and further members or the
      '}'. */
  function MemberValue(s: seq<byte>, L: nat, k: Run, d: nat, start: nat): (r: Run)
    requires k.ok && start < k.pos <= |s|
    ensures k.pos <= r.pos <= |s|
    ensures r.ok ==> k.pos < r.pos
    decreases |s| - k.pos, 6
  {
    if L > 0 && d + 1 > L then Run(k.events, k.pos, false)
    else
      var e := Element(s, L, k.pos, d + 1);
      if !e.ok then Prefix(k.events, e)
      else Prefix(k.events + e.events, AfterMember(s, L, e.pos, d, start))
  }

  /** After a member, at `r`: the '}' that ends the object, or ',' and the next
      member. */
  function AfterMember(s: seq<byte>, L: nat, r: nat, d: nat, start: nat): (x: Run)
    requires start < r <= |s|
    ensures r <= x.pos <= |s|
    ensures x.ok ==> r < x.pos
    decreases |s| - r, 1
  {
    if r == |s| then Run([], r, false)
    else if s[r] == RBRACE then Run([ObjectEnd(start, r + 1 - start)], r + 1, true)
    else if s[r] == COMMA then Members(s, L, r + 1, d, start)
    else Run([], r, false)
  }

  /** An array from its '[' at `p` (`parse_array`); "[]" pushes no frame. */
  function ArrayValue(s: seq<byte>, L: nat, p: nat, d: nat): (r: Run)
    requires p < |s|
    ensures p <= r.pos <= |s|
    ensures r.ok ==> p < r.pos
    decreases |s| - p, 3
  {
    var q := SkipWs(s, p + 1);
    if q < |s| && s[q] == RBRACKET then Run([ArrayStart(p), ArrayEnd(p, q + 1 - p)], q + 1, true)
    else Prefix([ArrayStart(p)], Elements(s, L, q, d, p))
  }

  /** An array element from `q` and everything after it up to the array's end:
      the depth check of the element's frame, the element, and then a ',' and
      further elements or the ']'. */
  function Elements(s: seq<byte>, L: nat, q: nat, d: nat, start: nat): (r: Run)
    requires start < q <= |s|
    ensures q <= r.pos <= |s|
    ensures r.ok ==> q < r.pos
    decreases |s| - q, 6
  {
    if L > 0 && d + 1 > L then Run([], q, false)
    else
      var e := Element(s, L, q, d + 1);
      if !e.ok then e
      else Prefix(e.events, AfterElement(s, L, e.pos, d, start))
  }

  /** After an array element, at `r`: ']' or ',' and the next element. */
  function AfterElement(s: seq<byte>, L: nat, r: nat, d: nat, start: nat): (x: Run)
    requires start < r <= |s|
    ensures r <= x.pos <= |s|
    ensures x.ok ==> r < x.pos
    decreases |s| - r, 1
  {
    if r == |s| then Run([], r, false)
    else if s[r] == RBRACKET then Run([ArrayEnd(start, r + 1 - start)], r + 1, true)
    else if s[r] == COMMA then Elements(s, L, r + 1, d, start)
    else Run([], r, false)
  }

  /** A whole JSON text under depth limit `L` (0 for none): one element whose
      frame is the only one on the stack, and nothing after it ("extra data"). */
  function ParseReference(s: seq<byte>, L: nat): (r: Run)
    ensures r.pos <= |s|
    ensures r.ok ==> r.pos == |s|
  {
    var e := Element(s, L, 0, 1);
    if e.ok && e.pos != |s| then Run(e.events, e.pos, false) else e
  }
}
