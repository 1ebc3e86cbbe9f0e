/** Concrete texts from the parser's unit tests, and texts showing its
    documented number and depth behaviour, worked through the grammar that
    `parse_json` is proved to follow: the events reported and where the parse
    ends or throws. Digits are written as bytes (0x31 is '1',
    0x32 is '2', 0x61 is 'a', 0x78 is 'x'). */
module JsonParserExamples {
  import opened Bytes
  import opened Exception
  import opened Utf8Codec
  import opened HexDigits
  import opened JsonEvents
  import opened JsonGrammar
  import opened JsonStringContent
  import opened JsonStringContentProperties

  // ---------------------------------------------------------------------------
  // Numbers
  // ---------------------------------------------------------------------------

  /** "-1e": an exponent needs a digit; the parser throws at the end. */
  lemma ExponentWithoutDigits()
    ensures ParseReference([MINUS, 0x31, LOWER_E], 0) == Run([], 3, false)
  {
    var s: seq<byte> := [MINUS, 0x31, LOWER_E];
    assert SkipWs(s, 0) == 0;
    assert DigitsEnd(s, 2) == 2;
    assert NumberLex(s, 0) == LexError(3);
    assert Primitive(s, 0) == Run([], 3, false);
    assert Value(s, 0, 0, 1) == Run([], 3, false);
    assert Element(s, 0, 0, 1) == Run([], 3, false);
  }

  /** "1.": a fraction needs a digit. */
  lemma FractionWithoutDigits()
    ensures ParseReference([0x31, DOT], 0) == Run([], 2, false)
  {
    var s: seq<byte> := [0x31, DOT];
    assert SkipWs(s, 0) == 0;
    assert DigitsEnd(s, 1) == 1;
    assert NumberLex(s, 0) == LexError(2);
    assert Primitive(s, 0) == Run([], 2, false);
    assert Element(s, 0, 0, 1) == Run([], 2, false);
  }

  /** "-": a sign needs a digit. */
  lemma BareMinus()
    ensures ParseReference([MINUS], 0) == Run([], 1, false)
  {
    var s: seq<byte> := [MINUS];
    assert SkipWs(s, 0) == 0;
    assert NumberLex(s, 0) == LexError(1);
    assert Primitive(s, 0) == Run([], 1, false);
    assert Element(s, 0, 0, 1) == Run([], 1, false);
  }

  /** "01": the leading zero is a whole number, and the '1' after it is extra
      data; the number "0" has been reported by then. */
  lemma LeadingZero()
    ensures ParseReference([DIGIT_0, 0x31], 0) == Run([PrimitiveValue(Number, 0, 1)], 1, false)
  {
    var s: seq<byte> := [DIGIT_0, 0x31];
    assert SkipWs(s, 0) == 0;
    assert NumberLex(s, 0) == Lexed(1);
    assert Primitive(s, 0) == Run([PrimitiveValue(Number, 0, 1)], 1, true);
    assert SkipWs(s, 1) == 1;
    assert Element(s, 0, 0, 1) == Run([PrimitiveValue(Number, 0, 1)], 1, true);
  }

  /** "-1.0e+1" is one number spanning the whole text. */
  lemma FullNumber()
    ensures ParseReference([MINUS, 0x31, DOT, DIGIT_0, LOWER_E, PLUS, 0x31], 0)
         == Run([PrimitiveValue(Number, 0, 7)], 7, true)
  {
    var s: seq<byte> := [MINUS, 0x31, DOT, DIGIT_0, LOWER_E, PLUS, 0x31];
    assert SkipWs(s, 0) == 0;
    assert DigitsEnd(s, 2) == 2;
    assert DigitsEnd(s, 4) == 4;
    assert DigitsEnd(s, 7) == 7;
    assert ExponentLex(s, 4) == Lexed(7);
    assert NumberLex(s, 0) == Lexed(7);
    assert Primitive(s, 0) == Run([PrimitiveValue(Number, 0, 7)], 7, true);
    assert SkipWs(s, 7) == 7;
    assert Element(s, 0, 0, 1) == Run([PrimitiveValue(Number, 0, 7)], 7, true);
  }

  // ---------------------------------------------------------------------------
  // Structure and whitespace
  // ---------------------------------------------------------------------------

  /** "": there is no value; the parser throws at offset 0. */
  lemma EmptyInput()
    ensures ParseReference([], 0) == Run([], 0, false)
  {
    assert SkipWs([], 0) == 0;
    assert Element([], 0, 0, 1) == Run([], 0, false);
  }

  /** "  ": whitespace alone is no value either. */
  lemma WhitespaceOnly()
    ensures ParseReference([SPACE, SPACE], 0) == Run([], 2, false)
  {
    var s: seq<byte> := [SPACE, SPACE];
    assert SkipWs(s, 0) == 2;
    assert Element(s, 0, 0, 1) == Run([], 2, false);
  }

  /** "[1,]": a ',' must be followed by another element. */
  lemma TrailingCommaInArray()
    ensures ParseReference([LBRACKET, 0x31, COMMA, RBRACKET], 0)
         == Run([ArrayStart(0), PrimitiveValue(Number, 1, 1)], 3, false)
  {
    var s: seq<byte> := [LBRACKET, 0x31, COMMA, RBRACKET];
    var one := [PrimitiveValue(Number, 1, 1)];
    assert SkipWs(s, 0) == 0;
    assert SkipWs(s, 1) == 1;
    assert DigitsEnd(s, 2) == 2;
    assert NumberLex(s, 1) == Lexed(2);
    assert SkipWs(s, 2) == 2;
    assert Element(s, 0, 1, 2) == Run(one, 2, true);
    assert SkipWs(s, 3) == 3;
    assert Element(s, 0, 3, 2) == Run([], 3, false);
    assert Elements(s, 0, 3, 1, 0) == Run([], 3, false);
    assert AfterElement(s, 0, 2, 1, 0) == Run([], 3, false);
    assert Elements(s, 0, 1, 1, 0) == Run(one, 3, false);
    assert ArrayValue(s, 0, 0, 1) == Run([ArrayStart(0)] + one, 3, false);
    assert Element(s, 0, 0, 1) == Run([ArrayStart(0)] + one, 3, false);
  }

  /** "[1 2]": after an element only ',' or ']' may follow. */
  lemma MissingComma()
    ensures ParseReference([LBRACKET, 0x31, SPACE, 0x32, RBRACKET], 0)
         == Run([ArrayStart(0), PrimitiveValue(Number, 1, 1)], 3, false)
  {
    var s: seq<byte> := [LBRACKET, 0x31, SPACE, 0x32, RBRACKET];
    var one := [PrimitiveValue(Number, 1, 1)];
    assert SkipWs(s, 0) == 0;
    assert SkipWs(s, 1) == 1;
    assert DigitsEnd(s, 2) == 2;
    assert NumberLex(s, 1) == Lexed(2);
    assert SkipWs(s, 2) == 3;
    assert Element(s, 0, 1, 2) == Run(one, 3, true);
    assert AfterElement(s, 0, 3, 1, 0) == Run([], 3, false);
    assert Elements(s, 0, 1, 1, 0) == Run(one, 3, false);
    assert ArrayValue(s, 0, 0, 1) == Run([ArrayStart(0)] + one, 3, false);
    assert Element(s, 0, 0, 1) == Run([ArrayStart(0)] + one, 3, false);
  }

  /** " [  1 , 2] ": whitespace around values and separators is skipped, and
      the array's end spans its brackets. */
  lemma WhitespaceAroundElements()
    ensures ParseReference([SPACE, LBRACKET, SPACE, SPACE, 0x31, SPACE, COMMA, SPACE, 0x32, RBRACKET, SPACE], 0)
         == Run([ArrayStart(1), PrimitiveValue(Number, 4, 1), PrimitiveValue(Number, 8, 1), ArrayEnd(1, 9)], 11, true)
  {
    var s: seq<byte> := [SPACE, LBRACKET, SPACE, SPACE, 0x31, SPACE, COMMA, SPACE, 0x32, RBRACKET, SPACE];
    var one := [PrimitiveValue(Number, 4, 1)];
    var two := [PrimitiveValue(Number, 8, 1)];
    assert SkipWs(s, 0) == 1;
    assert SkipWs(s, 3) == 4;
    assert SkipWs(s, 2) == 4;
    assert SkipWs(s, 4) == 4;
    assert DigitsEnd(s, 5) == 5;
    assert NumberLex(s, 4) == Lexed(5);
    assert SkipWs(s, 5) == 6;
    assert Element(s, 0, 4, 2) == Run(one, 6, true);
    assert SkipWs(s, 7) == 8;
    assert DigitsEnd(s, 9) == 9;
    assert NumberLex(s, 8) == Lexed(9);
    assert SkipWs(s, 9) == 9;
    assert Element(s, 0, 7, 2) == Run(two, 9, true);
    assert AfterElement(s, 0, 9, 1, 1) == Run([ArrayEnd(1, 9)], 10, true);
    assert Elements(s, 0, 7, 1, 1) == Run(two + [ArrayEnd(1, 9)], 10, true);
    assert AfterElement(s, 0, 6, 1, 1) == Run(two + [ArrayEnd(1, 9)], 10, true);
    assert Elements(s, 0, 4, 1, 1) == Run(one + two + [ArrayEnd(1, 9)], 10, true);
    var evs := [ArrayStart(1)] + one + two + [ArrayEnd(1, 9)];
    assert ArrayValue(s, 0, 1, 1) == Run(evs, 10, true);
    assert Value(s, 0, 1, 1) == Run(evs, 10, true);
    assert SkipWs(s, 10) == 11;
    assert Element(s, 0, 0, 1) == Run(evs, 11, true);
  }

  /** "{\"a\":1,}": a ',' in an object must be followed by a string key. */
  lemma TrailingCommaInObject()
    ensures ParseReference([LBRACE, QUOTE, 0x61, QUOTE, COLON, 0x31, COMMA, RBRACE], 0)
         == Run([ObjectStart(0), ObjectKey(2, 1), PrimitiveValue(Number, 5, 1)], 7, false)
  {
    var s: seq<byte> := [LBRACE, QUOTE, 0x61, QUOTE, COLON, 0x31, COMMA, RBRACE];
    var key := [ObjectKey(2, 1)];
    var one := [PrimitiveValue(Number, 5, 1)];
    assert SkipWs(s, 0) == 0;
    assert SkipWs(s, 1) == 1;
    assert Utf8Decode(s[2..]).pos == 1 && Utf8Decode(s[2..]).result.Ok?;
    assert CheckStep(FRESH_TRACKER, 0) == Ok(FRESH_TRACKER);
    assert StringScan(s, 3, FRESH_TRACKER, false) == Lexed(4);
    assert RawChar(s, 2, FRESH_TRACKER, false) == Ticked(s, 3, FRESH_TRACKER, false);
    assert StringScan(s, 2, FRESH_TRACKER, false) == Lexed(4);
    assert StringLex(s, 1) == Lexed(4);
    assert SkipWs(s, 4) == 4;
    assert MemberKey(s, 1) == Run(key, 5, true);
    assert SkipWs(s, 5) == 5;
    assert DigitsEnd(s, 6) == 6;
    assert NumberLex(s, 5) == Lexed(6);
    assert SkipWs(s, 6) == 6;
    assert Element(s, 0, 5, 2) == Run(one, 6, true);
    assert SkipWs(s, 7) == 7;
    assert MemberKey(s, 7) == Run([], 7, false);
    assert Members(s, 0, 7, 1, 0) == Run([], 7, false);
    assert AfterMember(s, 0, 6, 1, 0) == Run([], 7, false);
    assert MemberValue(s, 0, Run(key, 5, true), 1, 0) == Run(key + one, 7, false);
    assert Members(s, 0, 1, 1, 0) == Run(key + one, 7, false);
    assert ObjectValue(s, 0, 0, 1) == Run([ObjectStart(0)] + key + one, 7, false);
    assert Element(s, 0, 0, 1) == Run([ObjectStart(0)] + key + one, 7, false);
  }

  /** " [  1 , 2, { 2}] ": a member must start with a string key; the parser
      throws at the '2' (offset 13) after reporting the object's start. */
  lemma MemberWithoutKey()
    ensures ParseReference([SPACE, LBRACKET, SPACE, SPACE, 0x31, SPACE, COMMA, SPACE, 0x32, COMMA, SPACE, LBRACE,
                            SPACE, 0x32, RBRACE, RBRACKET, SPACE], 0)
         == Run([ArrayStart(1), PrimitiveValue(Number, 4, 1), PrimitiveValue(Number, 8, 1), ObjectStart(11)], 13, false)
  {
    var s: seq<byte> := [SPACE, LBRACKET, SPACE, SPACE, 0x31, SPACE, COMMA, SPACE, 0x32, COMMA, SPACE, LBRACE,
                         SPACE, 0x32, RBRACE, RBRACKET, SPACE];
    var one, two, open := [PrimitiveValue(Number, 4, 1)], [PrimitiveValue(Number, 8, 1)], [ObjectStart(11)];
    assert SkipWs(s, 0) == 1;
    assert SkipWs(s, 3) == 4;
    assert SkipWs(s, 2) == 4;
    assert SkipWs(s, 4) == 4;
    assert DigitsEnd(s, 5) == 5;
    assert NumberLex(s, 4) == Lexed(5);
    assert SkipWs(s, 5) == 6;
    assert Element(s, 0, 4, 2) == Run(one, 6, true);
    assert SkipWs(s, 7) == 8;
    assert DigitsEnd(s, 9) == 9;
    assert NumberLex(s, 8) == Lexed(9);
    assert SkipWs(s, 9) == 9;
    assert Element(s, 0, 7, 2) == Run(two, 9, true);
    assert SkipWs(s, 10) == 11;
    assert SkipWs(s, 12) == 13;
    assert SkipWs(s, 13) == 13;
    assert MemberKey(s, 13) == Run([], 13, false);
    assert ObjectValue(s, 0, 11, 2) == Run(open, 13, false);
    assert Element(s, 0, 10, 2) == Run(open, 13, false);
    assert Elements(s, 0, 10, 1, 1) == Run(open, 13, false);
    assert AfterElement(s, 0, 9, 1, 1) == Run(open, 13, false);
    assert Elements(s, 0, 7, 1, 1) == Run(two + open, 13, false);
    assert AfterElement(s, 0, 6, 1, 1) == Run(two + open, 13, false);
    assert Elements(s, 0, 4, 1, 1) == Run(one + two + open, 13, false);
    var evs := [ArrayStart(1)] + one + two + open;
    assert ArrayValue(s, 0, 1, 1) == Run(evs, 13, false);
    assert Element(s, 0, 0, 1) == Run(evs, 13, false);
  }

  /** " [  1 , 2, { \"123\" }] " */
  const KEY_WITHOUT_COLON: seq<byte> := [SPACE, LBRACKET, SPACE, SPACE, 0x31, SPACE, COMMA, SPACE, 0x32, COMMA, SPACE,
    LBRACE, SPACE, QUOTE, 0x31, 0x32, 0x33, QUOTE, SPACE, RBRACE, RBRACKET, SPACE]

  /** The key string `"123"` of `KEY_WITHOUT_COLON`, from its quote at offset 13,
      is read to offset 18. */
  lemma KeyWithoutColonString()
    ensures StringLex(KEY_WITHOUT_COLON, 13) == Lexed(18)
  {
    var s := KEY_WITHOUT_COLON;
    assert CheckStep(FRESH_TRACKER, 0) == Ok(FRESH_TRACKER);
    assert StringScan(s, 17, FRESH_TRACKER, false) == Lexed(18);
    assert Utf8Decode(s[16..]).pos == 1 && Utf8Decode(s[16..]).result.Ok?;
    assert RawChar(s, 16, FRESH_TRACKER, false) == Ticked(s, 17, FRESH_TRACKER, false);
    assert StringScan(s, 16, FRESH_TRACKER, false) == Lexed(18);
    assert Utf8Decode(s[15..]).pos == 1 && Utf8Decode(s[15..]).result.Ok?;
    assert RawChar(s, 15, FRESH_TRACKER, false) == Ticked(s, 16, FRESH_TRACKER, false);
    assert StringScan(s, 15, FRESH_TRACKER, false) == Lexed(18);
    assert Utf8Decode(s[14..]).pos == 1 && Utf8Decode(s[14..]).result.Ok?;
    assert RawChar(s, 14, FRESH_TRACKER, false) == Ticked(s, 15, FRESH_TRACKER, false);
    assert StringScan(s, 14, FRESH_TRACKER, false) == Lexed(18);
  }

  /** The key of `KEY_WITHOUT_COLON` is read, and the '}' after it stops the
      member at offset 19. */
  lemma KeyWithoutColonKey()
    ensures MemberKey(KEY_WITHOUT_COLON, 13) == Run([ObjectKey(14, 3)], 19, false)
  {
    var s := KEY_WITHOUT_COLON;
    assert SkipWs(s, 13) == 13;
    KeyWithoutColonString();
    assert SkipWs(s, 18) == 19;
  }

  /** The object of `KEY_WITHOUT_COLON` reports its start and its key and
      stops at offset 19. */
  lemma KeyWithoutColonObject()
    ensures Element(KEY_WITHOUT_COLON, 0, 10, 2) == Run([ObjectStart(11), ObjectKey(14, 3)], 19, false)
  {
    var s := KEY_WITHOUT_COLON;
    assert SkipWs(s, 10) == 11;
    assert SkipWs(s, 12) == 13;
    KeyWithoutColonKey();
    assert ObjectValue(s, 0, 11, 2) == Run([ObjectStart(11), ObjectKey(14, 3)], 19, false);
  }

  /** On `KEY_WITHOUT_COLON` a key must be followed by ':'; the parser reports
      the key and throws at the '}' (offset 19). */
  lemma KeyWithoutColon()
    ensures ParseReference(KEY_WITHOUT_COLON, 0)
         == Run([ArrayStart(1), PrimitiveValue(Number, 4, 1), PrimitiveValue(Number, 8, 1), ObjectStart(11),
                 ObjectKey(14, 3)], 19, false)
  {
    var s := KEY_WITHOUT_COLON;
    var one, two, open := [PrimitiveValue(Number, 4, 1)], [PrimitiveValue(Number, 8, 1)], [ObjectStart(11), ObjectKey(14, 3)];
    assert SkipWs(s, 0) == 1;
    assert SkipWs(s, 3) == 4;
    assert SkipWs(s, 2) == 4;
    assert SkipWs(s, 4) == 4;
    assert DigitsEnd(s, 5) == 5;
    assert NumberLex(s, 4) == Lexed(5);
    assert SkipWs(s, 5) == 6;
    assert Element(s, 0, 4, 2) == Run(one, 6, true);
    assert SkipWs(s, 7) == 8;
    assert DigitsEnd(s, 9) == 9;
    assert NumberLex(s, 8) == Lexed(9);
    assert SkipWs(s, 9) == 9;
    assert Element(s, 0, 7, 2) == Run(two, 9, true);
    KeyWithoutColonObject();
    assert Elements(s, 0, 10, 1, 1) == Run(open, 19, false);
    assert AfterElement(s, 0, 9, 1, 1) == Run(open, 19, false);
    assert Elements(s, 0, 7, 1, 1) == Run(two + open, 19, false);
    assert AfterElement(s, 0, 6, 1, 1) == Run(two + open, 19, false);
    assert Elements(s, 0, 4, 1, 1) == Run(one + two + open, 19, false);
    var evs := [ArrayStart(1)] + one + two + open;
    assert ArrayValue(s, 0, 1, 1) == Run(evs, 19, false);
    assert Element(s, 0, 0, 1) == Run(evs, 19, false);
  }

  /** "{\"a\":1\"b\":2}": after a member only ',' or '}' may follow; the parser
      throws at the second key's quote (offset 6). */
  lemma MissingCommaInObject()
    ensures ParseReference([LBRACE, QUOTE, 0x61, QUOTE, COLON, 0x31, QUOTE, 0x62, QUOTE, COLON, 0x32, RBRACE], 0)
         == Run([ObjectStart(0), ObjectKey(2, 1), PrimitiveValue(Number, 5, 1)], 6, false)
  {
    var s: seq<byte> := [LBRACE, QUOTE, 0x61, QUOTE, COLON, 0x31, QUOTE, 0x62, QUOTE, COLON, 0x32, RBRACE];
    var key := [ObjectKey(2, 1)];
    var one := [PrimitiveValue(Number, 5, 1)];
    assert SkipWs(s, 0) == 0;
    assert SkipWs(s, 1) == 1;
    assert Utf8Decode(s[2..]).pos == 1 && Utf8Decode(s[2..]).result.Ok?;
    assert CheckStep(FRESH_TRACKER, 0) == Ok(FRESH_TRACKER);
    assert StringScan(s, 3, FRESH_TRACKER, false) == Lexed(4);
    assert RawChar(s, 2, FRESH_TRACKER, false) == Ticked(s, 3, FRESH_TRACKER, false);
    assert StringScan(s, 2, FRESH_TRACKER, false) == Lexed(4);
    assert StringLex(s, 1) == Lexed(4);
    assert SkipWs(s, 4) == 4;
    assert MemberKey(s, 1) == Run(key, 5, true);
    assert SkipWs(s, 5) == 5;
    assert DigitsEnd(s, 6) == 6;
    assert NumberLex(s, 5) == Lexed(6);
    assert SkipWs(s, 6) == 6;
    assert Element(s, 0, 5, 2) == Run(one, 6, true);
    assert AfterMember(s, 0, 6, 1, 0) == Run([], 6, false);
    assert MemberValue(s, 0, Run(key, 5, true), 1, 0) == Run(key + one, 6, false);
    assert Members(s, 0, 1, 1, 0) == Run(key + one, 6, false);
    assert ObjectValue(s, 0, 0, 1) == Run([ObjectStart(0)] + key + one, 6, false);
    assert Element(s, 0, 0, 1) == Run([ObjectStart(0)] + key + one, 6, false);
  }

  /** "{\"a\":1 \"b\":2}": whitespace does not separate members; after the
      space the parser throws at the second key's quote (offset 7). */
  lemma SpaceBetweenMembers()
    ensures ParseReference([LBRACE, QUOTE, 0x61, QUOTE, COLON, 0x31, SPACE, QUOTE, 0x62, QUOTE, COLON, 0x32, RBRACE], 0)
         == Run([ObjectStart(0), ObjectKey(2, 1), PrimitiveValue(Number, 5, 1)], 7, false)
  {
    var s: seq<byte> := [LBRACE, QUOTE, 0x61, QUOTE, COLON, 0x31, SPACE, QUOTE, 0x62, QUOTE, COLON, 0x32, RBRACE];
    var key := [ObjectKey(2, 1)];
    var one := [PrimitiveValue(Number, 5, 1)];
    assert SkipWs(s, 0) == 0;
    assert SkipWs(s, 1) == 1;
    assert Utf8Decode(s[2..]).pos == 1 && Utf8Decode(s[2..]).result.Ok?;
    assert CheckStep(FRESH_TRACKER, 0) == Ok(FRESH_TRACKER);
    assert StringScan(s, 3, FRESH_TRACKER, false) == Lexed(4);
    assert RawChar(s, 2, FRESH_TRACKER, false) == Ticked(s, 3, FRESH_TRACKER, false);
    assert StringScan(s, 2, FRESH_TRACKER, false) == Lexed(4);
    assert StringLex(s, 1) == Lexed(4);
    assert SkipWs(s, 4) == 4;
    assert MemberKey(s, 1) == Run(key, 5, true);
    assert SkipWs(s, 5) == 5;
    assert DigitsEnd(s, 6) == 6;
    assert NumberLex(s, 5) == Lexed(6);
    assert SkipWs(s, 7) == 7;
    assert SkipWs(s, 6) == 7;
    assert Element(s, 0, 5, 2) == Run(one, 7, true);
    assert AfterMember(s, 0, 7, 1, 0) == Run([], 7, false);
    assert MemberValue(s, 0, Run(key, 5, true), 1, 0) == Run(key + one, 7, false);
    assert Members(s, 0, 1, 1, 0) == Run(key + one, 7, false);
    assert ObjectValue(s, 0, 0, 1) == Run([ObjectStart(0)] + key + one, 7, false);
    assert Element(s, 0, 0, 1) == Run([ObjectStart(0)] + key + one, 7, false);
  }

  /** "[1\"a\"]": the same in an array; the parser throws at the quote (offset 2). */
  lemma StringAfterElement()
    ensures ParseReference([LBRACKET, 0x31, QUOTE, 0x61, QUOTE, RBRACKET], 0)
         == Run([ArrayStart(0), PrimitiveValue(Number, 1, 1)], 2, false)
  {
    var s: seq<byte> := [LBRACKET, 0x31, QUOTE, 0x61, QUOTE, RBRACKET];
    var one := [PrimitiveValue(Number, 1, 1)];
    assert SkipWs(s, 0) == 0;
    assert SkipWs(s, 1) == 1;
    assert DigitsEnd(s, 2) == 2;
    assert NumberLex(s, 1) == Lexed(2);
    assert SkipWs(s, 2) == 2;
    assert Element(s, 0, 1, 2) == Run(one, 2, true);
    assert AfterElement(s, 0, 2, 1, 0) == Run([], 2, false);
    assert Elements(s, 0, 1, 1, 0) == Run(one, 2, false);
    assert ArrayValue(s, 0, 0, 1) == Run([ArrayStart(0)] + one, 2, false);
    assert Element(s, 0, 0, 1) == Run([ArrayStart(0)] + one, 2, false);
  }

  // ---------------------------------------------------------------------------
  // The depth limit
  // ---------------------------------------------------------------------------

  /** With a limit of one frame, "[1]" throws the depth error at the element
      inside the array (offset 1), after reporting the array's start. */
  lemma DepthLimitOneRejectsNesting()
    ensures ParseReference([LBRACKET, 0x31, RBRACKET], 1) == Run([ArrayStart(0)], 1, false)
  {
    var s: seq<byte> := [LBRACKET, 0x31, RBRACKET];
    assert SkipWs(s, 0) == 0;
    assert SkipWs(s, 1) == 1;
    assert Elements(s, 1, 1, 1, 0) == Run([], 1, false);
    assert ArrayValue(s, 1, 0, 1) == Run([ArrayStart(0)], 1, false);
    assert Element(s, 1, 0, 1) == Run([ArrayStart(0)], 1, false);
  }

  /** With the same limit "[]" is accepted: an empty array pushes no frame. */
  lemma DepthLimitOneAcceptsEmptyArray()
    ensures ParseReference([LBRACKET, RBRACKET], 1) == Run([ArrayStart(0), ArrayEnd(0, 2)], 2, true)
  {
    var s: seq<byte> := [LBRACKET, RBRACKET];
    assert SkipWs(s, 0) == 0;
    assert SkipWs(s, 1) == 1;
    assert ArrayValue(s, 1, 0, 1) == Run([ArrayStart(0), ArrayEnd(0, 2)], 2, true);
    assert SkipWs(s, 2) == 2;
    assert Element(s, 1, 0, 1) == Run([ArrayStart(0), ArrayEnd(0, 2)], 2, true);
  }

  // ---------------------------------------------------------------------------
  // The string lexer's surrogate quirk
  // ---------------------------------------------------------------------------

  /** The content `\uD800x\uDC00`: a high surrogate escape, a plain 'x', a low
      surrogate escape. */
  const INTERRUPTED_PAIR: seq<byte> :=
    [BACKSLASH, LOWER_U, 0x44, 0x38, 0x30, 0x30, 0x78, BACKSLASH, LOWER_U, 0x44, 0x43, 0x30, 0x30]

  /** Once a `\u` escape has been read, `parse_string` stops ticking the
      surrogate checker after other characters, so the 'x' between the two
      halves goes unnoticed and the string is accepted; decoding the same
      content with `json_string_content_to_utf8` ticks after the 'x' and
      rejects it. */
  lemma InterruptedPairQuirk()
    ensures StringLex([QUOTE] + INTERRUPTED_PAIR + [QUOTE], 0) == Lexed(15)
    ensures ContentToUtf8(INTERRUPTED_PAIR, FRESH_TRACKER) == Err(UnicodeCodePointError)
  {
    var s: seq<byte> := [QUOTE] + INTERRUPTED_PAIR + [QUOTE];
    var hi := TrackerState(0xD800, true);
    var joined := TrackerState(0x10000, false);
    HighEscapeLexed(s);
    LowEscapeLexed(s);
    assert Utf8Decode(s[7..]).pos == 1 && Utf8Decode(s[7..]).result.Ok?;
    assert RawChar(s, 7, hi, true) == Ticked(s, 8, hi, true);
    assert StringScan(s, 7, hi, true) == Lexed(15);
    assert StringScan(s, 1, FRESH_TRACKER, false) == Lexed(15);
    DecodeExampleInterruptedPair();
  }

  /** The first escape: a high surrogate, now awaiting its low half. */
  lemma HighEscapeLexed(s: seq<byte>)
    requires s == [QUOTE] + INTERRUPTED_PAIR + [QUOTE]
    ensures EscapeChar(s, 1, FRESH_TRACKER, false) == StringScan(s, 7, TrackerState(0xD800, true), true)
  {
    assert s[3..][..4] == [0x44, 0x38, 0x30, 0x30];
    HexValueOfFour(s[3..][..4]);
    assert HexSeqToCodePoint(s[3..]) == Scan(Ok(0xD800), 4);
    assert CheckStep(FRESH_TRACKER, 0xD800) == Ok(TrackerState(0xD800, true));
  }

  /** The four digits of the second escape spell the low surrogate 0xDC00. */
  lemma LowHexDecoded(s: seq<byte>)
    requires s == [QUOTE] + INTERRUPTED_PAIR + [QUOTE]
    ensures HexSeqToCodePoint(s[10..]) == Scan(Ok(0xDC00), 4)
  {
    assert s[10..][..4] == [0x44, 0x43, 0x30, 0x30];
    HexValueOfFour(s[10..][..4]);
  }

  /** The second escape completes the pair, and the closing quote follows. */
  lemma LowEscapeLexed(s: seq<byte>)
    requires s == [QUOTE] + INTERRUPTED_PAIR + [QUOTE]
    ensures StringScan(s, 8, TrackerState(0xD800, true), true) == Lexed(15)
  {
    var hi := TrackerState(0xD800, true);
    var joined := TrackerState(0x10000, false);
    LowHexDecoded(s);
    assert CheckStep(hi, 0xDC00) == Ok(joined);
    assert StringScan(s, 14, joined, true) == Lexed(15);
    assert EscapeChar(s, 8, hi, true) == Lexed(15);
  }
}
