# flumps core in Dafny

flumps is a streaming JSON library. A non-recursive parser walks a byte
buffer with an explicit stack of frames and reports SAX-style events (object
start, key, end, array start and end, primitive value) to a visitor. Two
visitors ship with it. One is a callback dispatcher that runs callbacks
registered against value paths such as `.a.b[]`. The other is an echo
visitor that pretty-prints the events back as JSON. Beside them sit the
string helpers: a UTF-8 codec with a surrogate-pair tracker, and the
conversion between JSON string content and UTF-8.

This project models that core:

- **String helpers.**
  - `Utf8Codec`, `HexDigits`, `Utf8Validity`, `JsonEscape` and
    `JsonStringContent` follow `string_helpers.cpp` function by function.
  - The surrogate checker is a class whose two fields the methods update.
- **Value paths.** `JsonValuePath` is the state machine of the
  `JsonValuePath` constructor. `JsonValuePathProperties` proves which texts
  it accepts: exactly the canonical spellings of segment lists, plus the
  empty path.
- **Parser.**
  - `JsonGrammar` is a recursive reference definition of what the parser
    reads and reports.
  - `JsonParser.JsonParserImpl` is the parser itself: a class with its
    frame stack, its depth limit and an event log, with one method per
    member function.
  - Its `ParseJson` loop is proved to report exactly the reference's events
    and to succeed or fail exactly when the reference does.
  - `JsonNumberProperties` proves the number lexer accepts exactly the
    number tokens of section 6 of RFC 8259 that no following byte extends:
    `1.` and `-1e` are rejected, not read as `1` and `-1`.
  - `JsonStringGrammar` characterises the string lexer without reference to
    its loop. A string is accepted exactly when its body is raw UTF-8 without
    control bytes, quotes or backslashes, mixed with the eight short escapes
    and `\u` escapes of four hex digits, and its `\u` surrogates pair up.
  - `JsonDepthProperties` proves what the depth limit does. A text parses
    under a limit exactly when it parses without one and its nesting fits
    under the limit. When it does, the events are the same.
  - `JsonGrammarProperties` proves the events form one well-nested root
    value, checked against the protocol automaton in `JsonEvents`, and that
    each event's span lies inside the text.
- **Callback dispatcher.**
  - `JsonCallbackVisitor.JsonCallbackVisitorImpl` keeps the trie of nodes
    as an arena, a sequence indexed by node number, together with the
    cursor (`pos_`, `overflow_`, `path_`) and the log of callback calls.
  - `JsonCallbackVisitorProperties` proves several things. Registration
    makes the path name a node holding the new callback. Earlier paths are
    kept. After any prefix of a well-nested event stream the cursor is a
    function of the open scopes. A value whose path was registered finds
    the cursor on that path's node and runs its callbacks, the new one last,
    with the path's canonical text. After a whole root value the cursor is
    back at the root.
  - `JsonCallbackVisitorExamples` works through the callback sequences
    test: its seven registrations build the expected trie, and three of its
    texts run exactly the expected callbacks. Along the way it proves that,
    below the trie, events run no callback and only move the overflow
    stack.
- **Echo visitor.**
  - `JsonEchoVisitor.JsonEchoVisitorImpl` keeps the output buffer and the
    state stack.
  - `JsonEchoVisitorProperties` proves that, for any event stream the
    parser can report, the printed text is the expected pretty-printed
    layout and the stack returns to the root entry.

Several quirks of the C++ code are modelled as written, and lemmas exhibit
them:

- `to_hex(10)` yields `':'`.
- The escape writer uses `to_hex(cp & 4u)`, so every digit is `'0'` or `'4'`.
- Its surrogate-split masks use `&` and are always zero.
- `0x10000` takes the one-escape branch.
- `code_point_to_utf8` rejects U+10FFFF.
- The decoder accepts overlong forms.
- `parse_string` never clears `last_cp_was_hex_seq`.
- `0x1F` does not round-trip through the content encoder.
- `""` and `"."` are equal paths.

Where the rest of the model needs it, the model keeps the behaviour as
written.

Every file path below is relative to the repository root.

## Model

| member | source | states |
|---|---|---|
| Utf8Codec.CodePointTypeOf | src/flumps/string_helpers.cpp:66-75 | Err (UnicodeCodePointError) exactly above U+10FFFF; HighSurrogate exactly for D800–DBFF, LowSurrogate exactly for DC00–DFFF, Other otherwise |
| Utf8Codec.Utf8Decode | src/flumps/string_helpers.cpp:146-179 | a success consumes exactly the length the lead byte announces and yields a scalar value (at most U+10FFFF, not a surrogate); the end position never passes the input; the errors are UTF-8 or code-point errors, never parse errors |
| Utf8Codec.ChompUtf8Char | src/flumps/string_helpers.cpp:146-179 | the looping decoder returns what Utf8Decode gives for the bytes from the position on |
| Utf8Codec.ChompContinuations | src/flumps/string_helpers.cpp:167-174 | succeeds exactly when every expected byte is a continuation byte, adding six bits per byte; otherwise it stops at the first byte that is not one |
| Utf8Codec.CodePointToUtf8 | src/flumps/string_helpers.cpp:41-60 | succeeds exactly below U+10FFFF; 1 to 4 bytes whose lead byte announces the length, followed by continuation bytes; one byte exactly below 0x80 |
| Utf8Codec.SurrogatePairToCodePoint | src/flumps/string_helpers.cpp:133-142 | succeeds exactly for a high then a low surrogate; the result lies in 0x10000..0x10FFFF and is 0x10000 + (high−D800)·1024 + (low−DC00) |
| Utf8Codec.CheckStep | src/flumps/string_helpers.cpp:181-200 | every successful transition leaves a checker that awaits a low surrogate only after a high one |
| Utf8Codec.Utf8SurrogateChecker.constructor | include/flumps/string_helpers.h:15-23 | a default checker: last code point 0, no low surrogate awaited |
| Utf8Codec.Utf8SurrogateChecker.CheckCodePoint | src/flumps/string_helpers.cpp:181-200 | on success the fields become CheckStep's state and the result is "no low surrogate pending"; on an error the fields are unchanged |
| Utf8CodecProperties.Utf8DecodeWellFormed | src/flumps/string_helpers.cpp:146-179 | a complete well-formed lead-plus-continuations sequence decodes to its accumulated value, or to the code-point or surrogate error that value calls for |
| Utf8CodecProperties.Utf8DecodeExamples | test/flumps/string_helpers_test.cpp:20-35 | the one- and two-byte decoding tests |
| Utf8CodecProperties.Utf8DecodeThreeByteExample | test/flumps/string_helpers_test.cpp:36-43 | the three-byte decoding test |
| Utf8CodecProperties.Utf8DecodeFourByteExample | test/flumps/string_helpers_test.cpp:44-51 | the four-byte decoding test |
| Utf8CodecProperties.Utf8DecodeRejections | test/flumps/string_helpers_test.cpp:52-100 | the rejected inputs of the decoding tests raise a UTF-8 decode error |
| Utf8CodecProperties.Utf8DecodeAboveMaxRejected | test/flumps/string_helpers_test.cpp:101-107 | a sequence for a value above U+10FFFF is rejected |
| Utf8CodecProperties.Utf8DecodeSurrogateRejected | src/flumps/string_helpers.cpp:176-177 | a three-byte encoding of a surrogate raises a UTF-8 decode error |
| Utf8CodecProperties.Utf8DecodeIsLocal | src/flumps/string_helpers.cpp:146-179 | decoding looks only at the bytes of the sequence itself: what follows does not change the result |
| Utf8CodecProperties.Utf8RoundTrip | src/flumps/string_helpers.cpp:41-60 | every encodable code point decodes back from its encoding, whatever follows it, consuming exactly the encoding |
| Utf8CodecProperties.DecodeTwoByteEncoding | src/flumps/string_helpers.cpp:44-46 | the two-byte case of the round trip |
| Utf8CodecProperties.DecodeThreeByteEncoding | src/flumps/string_helpers.cpp:47-50 | the three-byte case of the round trip |
| Utf8CodecProperties.DecodeFourByteEncoding | src/flumps/string_helpers.cpp:51-55 | the four-byte case of the round trip |
| Utf8CodecProperties.OverlongFormsAccepted | src/flumps/string_helpers.cpp:146-179 | overlong encodings (such as C0 80 for NUL) decode without error, because the decoder never checks for them |
| Utf8CodecProperties.LastCodePointNotEncodable | src/flumps/string_helpers.cpp:51-59 | U+10FFFF decodes, but the encoder rejects it because of the strict `<` test |
| Utf8CodecProperties.SurrogatePairInverse | src/flumps/string_helpers.cpp:133-142 | splitting any supplementary code point into its two surrogates and joining them gives it back |
| Utf8CodecProperties.CheckStepTransitions | src/flumps/string_helpers.cpp:181-200 | the whole transition table of the checker, error by error and state by state |
| Utf8CodecProperties.TickOnIdle | src/flumps/string_helpers.cpp:181-200 | checking code point 0 succeeds exactly when no low surrogate is pending, and then resets the checker |
| Utf8CodecProperties.CheckerExamples | test/flumps/string_helpers_test.cpp:138-192 | the surrogate-checker tests |
| HexDigits.IsHex | src/flumps/string_helpers.cpp:16-21 | a digit, or a letter a-f in either case; IsHexCharacterised gives the same set as a list of characters |
| HexDigits.IsHexCharacterised | src/flumps/string_helpers.cpp:16-21 | the bytes `is_hex` accepts are exactly the 22 characters `0123456789abcdefABCDEF` |
| HexDigits.ToHex | src/flumps/string_helpers.cpp:23-28 | every value below 16 except 10 is written as a hex digit that reads back as that value; 10 is written as ':' |
| HexDigits.HexToDec | src/flumps/string_helpers.cpp:30-38 | the value of a hex digit is below 16, and below 10 exactly for a decimal digit |
| HexDigits.HexSeqToCodePoint | src/flumps/string_helpers.cpp:202-217 | succeeds exactly when four hex digits are there, consuming exactly four bytes, with a value below 0x10000; with fewer than four bytes left it is a parse error at offset 0; otherwise a failure is a parse error at the first byte that is not a hex digit |
| HexDigits.JsonHexSeqToCodePoint | src/flumps/string_helpers.cpp:202-217 | the loop computes HexSeqToCodePoint |
| HexDigits.HexToDecInvertsDigit | src/flumps/string_helpers.cpp:30-38 | decoding inverts the lower-case digit of every value below 16, and an upper-case digit decodes like its lower-case one |
| HexDigits.ToHexAgreesExceptTen | src/flumps/string_helpers.cpp:23-28 | `to_hex` gives the correct digit for every value below 16 except 10, for which it gives ':' |
| HexDigits.HexSeqRoundTrip | src/flumps/string_helpers.cpp:202-217 | the four lower-case digits of any value below 0x10000 read back as that value |
| HexDigits.HexSeqExamples | test/flumps/string_helpers_test.cpp:108-129 | the three hex-sequence tests on their own inputs: `09aF____` reads 0x09AF from its first four bytes, `000` is too short (offset 0), and in `000_` the `_` is rejected where it stands (offset 3) |
| Utf8Validity.CodePoints | src/flumps/string_helpers.cpp:99-110 | the code points of a valid text are scalar values, at most one per byte |
| Utf8Validity.IsUtf8 | src/flumps/string_helpers.cpp:99-110 | the loop answers ValidUtf8 |
| Utf8Validity.ValidUtf8Append | src/flumps/string_helpers.cpp:99-110 | valid texts are closed under concatenation, and their code points concatenate |
| Utf8Validity.EncodingIsValid | src/flumps/string_helpers.cpp:41-60 | every encoding the encoder produces is valid UTF-8 with exactly that one code point |
| Utf8Validity.Latin1ToUtf8 | src/flumps/string_helpers.cpp:115-131 | the output is one byte longer than the input for each byte at or above 0x80 |
| Utf8Validity.ForceToUtf8 | src/flumps/string_helpers.cpp:115-131 | the loop builds Latin1ToUtf8 of the input |
| Utf8Validity.Latin1CharIsEncoding | src/flumps/string_helpers.cpp:121-126 | what a byte becomes is the UTF-8 encoding of the code point with that byte's value |
| Utf8Validity.Latin1ToUtf8Decodes | src/flumps/string_helpers.cpp:112-114 | the output is valid UTF-8 whose code points are the input bytes |
| Utf8Validity.Latin1ToUtf8Injective | src/flumps/string_helpers.cpp:112-114 | different inputs give different outputs |
| Utf8Validity.Latin1ToUtf8KeepsAscii | src/flumps/string_helpers.cpp:112-114 | an ASCII input comes out unchanged |
| JsonEscape.EscapeDigit | src/flumps/string_helpers.cpp:92 | each digit written is '4' or '0', by bit 2 of the value masked with 4 |
| JsonEscape.SplitMasksVanish | src/flumps/string_helpers.cpp:84-85 | both surrogate-split expressions are zero for every code point |
| JsonEscape.EscapeBytes | src/flumps/string_helpers.cpp:78-97 | six bytes, or twelve above 0x10000; each escape starts with a backslash and every digit is '0' or '4' |
| JsonEscape.JsonEscape | src/flumps/string_helpers.cpp:78-97 | succeeds exactly up to U+10FFFF, with EscapeBytes; otherwise a code-point error |
| JsonEscape.AppendJsonEscape | src/flumps/string_helpers.cpp:78-97 | the output with the escape appended, or the code-point error with nothing written |
| JsonEscape.WriteJsonEscape | src/flumps/string_helpers.cpp:78-97 | the writer appends EscapeBytes to the output |
| JsonEscape.WriteEscapeDigits | src/flumps/string_helpers.cpp:89-95 | the four-digit loop appends EscapeBytes for a code point up to 0x10000 |
| JsonEscape.EscapeDigitOfNibble | src/flumps/string_helpers.cpp:92 | a written digit equals the true hex digit of its nibble exactly when the nibble is 0 or 4 |
| JsonEscape.EscapeOfAsciiByte | src/flumps/string_helpers.cpp:78-97 | a byte below 0x80 is written as `\u00` and two digits |
| JsonEscape.EscapeCorrectOnlyForZeroFourNibbles | src/flumps/string_helpers.cpp:78-97 | below 0x10000 the escape is the correct `\uXXXX` exactly when every nibble is 0 or 4 |
| JsonEscape.EscapeAgainstHex | src/flumps/string_helpers.cpp:89-95 | digit by digit, what is written against the correct hex digit |
| JsonEscape.EscapeBytesBelow | src/flumps/string_helpers.cpp:88-96 | below 0x10000: a backslash, 'u', then the four digits of the nibbles from high to low |
| JsonEscape.EscapeExamples | src/flumps/string_helpers.cpp:78-97 | 0x1F gives `\u0004`, 0x7F gives `\u0044`, 0 gives `\u0000`, 0x10000 gives `\00000` |
| JsonEscape.EscapeOfSupplementary | src/flumps/string_helpers.cpp:82-87 | above 0x10000 the result is two `\u0000` escapes, or the error above U+10FFFF |
| JsonStringContent.ContentToUtf8 | src/flumps/string_helpers.cpp:223-281 | never longer than its input; the errors are parse or code-point errors, never UTF-8 errors |
| JsonStringContent.DecodeHexEscape | src/flumps/string_helpers.cpp:256-265 | the `\u` case: four hex digits go through the checker; a completed pair or a non-surrogate is written as UTF-8 |
| JsonStringContent.JsonStringContentToUtf8 | src/flumps/string_helpers.cpp:223-281 | the loop computes ContentToUtf8 from a fresh checker |
| JsonStringContent.ContentFromUtf8 | src/flumps/string_helpers.cpp:287-331 | never shorter than its input; the errors are UTF-8 or code-point errors, never parse errors |
| JsonStringContent.EscapeByte | src/flumps/string_helpers.cpp:295-322 | the characters with a short escape get a backslash and their letter; other control bytes get EscapeBytes |
| JsonStringContent.Utf8ToJsonStringContent | src/flumps/string_helpers.cpp:287-331 | the loop computes ContentFromUtf8 |
| JsonStringContent.ToJsonStringContentSafe | src/flumps/string_helpers.cpp:337-345 | never fails: it escapes a valid text itself, and anything else after mapping it from Latin-1 |
| JsonStringContent.ContentFromUtf8OkOnValid | src/flumps/string_helpers.cpp:287-331 | encoding valid UTF-8 never fails |
| JsonStringContentProperties.ShortEscapesInverse | src/flumps/string_helpers.cpp:296-318 | the encoder's and the decoder's two-character escapes invert each other; 'u' is not one of them |
| JsonStringContentProperties.AsciiDecodesAlone | src/flumps/string_helpers.cpp:150-151 | a byte below 0x80 is a sequence by itself |
| JsonStringContentProperties.MultiByteSequenceHasNoAscii | src/flumps/string_helpers.cpp:146-179 | every byte of a longer sequence is at or above 0x80, so a backslash never sits inside one |
| JsonStringContentProperties.PlainBytesCopied | src/flumps/string_helpers.cpp:270-276 | a byte other than a backslash is copied to the output as it is |
| JsonStringContentProperties.PlainContentUnchanged | src/flumps/string_helpers.cpp:223-281 | content without a backslash decodes to itself |
| JsonStringContentProperties.BadEscapesRejected | src/flumps/string_helpers.cpp:230-269 | a trailing backslash or an unknown escape letter is a parse error |
| JsonStringContentProperties.PendingHighRejectedAtEnd | src/flumps/string_helpers.cpp:279 | content that ends after a lone high surrogate is a code-point error |
| JsonStringContentProperties.HexEscapeStep | src/flumps/string_helpers.cpp:256-259 | one `\uXXXX` escape hands its four-digit value to the checker |
| JsonStringContentProperties.DecodeExampleLetterA | test/flumps/string_helpers_test.cpp:201-206 | `\u0041` decodes to "A" |
| JsonStringContentProperties.DecodeLowHalfExample | src/flumps/string_helpers.cpp:256-261 | the low half of a pair completes a pending high surrogate |
| JsonStringContentProperties.DecodeExampleSurrogatePair | src/flumps/string_helpers.cpp:256-261 | `\uD83D\uDE00` decodes to the four-byte UTF-8 of U+1F600 |
| JsonStringContentProperties.DecodeExampleLastCodePoint | src/flumps/string_helpers.cpp:51-59 | `\uDBFF\uDFFF` is rejected, because U+10FFFF cannot be encoded |
| JsonStringContentProperties.DecodeExampleInterruptedPair | src/flumps/string_helpers.cpp:273-276 | `\uD800x\uDC00` is a code-point error |
| JsonStringContentProperties.ContentFromUtf8OkIffValid | src/flumps/string_helpers.cpp:287-331 | the encoder succeeds exactly on valid UTF-8 |
| JsonStringContentProperties.ContentRoundTrip | src/flumps/string_helpers.cpp:287-331 | decoding the encoding of valid UTF-8 gives the text back, when every byte below 0x20 is one of the five short-escaped controls, NUL or 0x04 (whose `\u0000` and `\u0004` escapes are right), and there is no DEL |
| JsonStringContentProperties.ContentRoundTripFailsForUnitSeparator | src/flumps/string_helpers.cpp:319-321 | byte 0x1F comes back as 0x04 |
| JsonStringContentProperties.PlainAsciiEncodedAsIs | src/flumps/string_helpers.cpp:287-331 | printable ASCII other than quote, backslash and slash is copied unchanged |
| JsonStringContentProperties.ContentFromUtf8Append | src/flumps/string_helpers.cpp:287-331 | a valid prefix is encoded independently of what follows |
| JsonStringContentProperties.QuoteEscapedInPlainText | src/flumps/string_helpers.cpp:292-303 | a quote inside plain text is written with a backslash before it |
| JsonStringContentProperties.SafeEncodingExample | test/flumps/string_helpers_test.cpp:194-199 | the safe-encoding test |
| JsonStringContentProperties.AsciiIsValid | src/flumps/string_helpers.cpp:99-110 | ASCII text is valid UTF-8 |
| JsonValuePath.Segment.IsArray | src/flumps/json_value_path.cpp:13-15 | a segment is an array segment exactly when it is the one with the empty key |
| JsonValuePath.Segment.IsObject | src/flumps/json_value_path.cpp:17-19 | every segment is exactly one of an object segment and an array segment |
| JsonValuePath.AllowedKeyByte | src/flumps/json_value_path.cpp:25-31 | a key byte is printable ASCII other than space; `.`, `[`, the backslash and the quote never are |
| JsonValuePath.SamePath | src/flumps/json_value_path.cpp:118-121 | two paths compare equal exactly when their segments are equal, whatever texts they were read from |
| JsonValuePath.ReadPath | src/flumps/json_value_path.cpp:36-108 | a path is returned exactly when the state machine accepts; its text is the input |
| JsonValuePath.PendingAtEnd | src/flumps/json_value_path.cpp:43-105 | what each state leaves when the text runs out: accepted in the root and complete states, an error in the others |
| JsonValuePath.Step | src/flumps/json_value_path.cpp:44-106 | one turn of the switch leaves the outcome of the rest of the text unchanged |
| JsonValuePath.ParsePath | src/flumps/json_value_path.cpp:36-108 | the loop computes ReadPath |
| JsonValuePathProperties.PathTextCharacterised | src/flumps/json_value_path.cpp:36-108 | a text is accepted exactly when it is empty or the canonical spelling of some segments |
| JsonValuePathProperties.ReadIsRendered | src/flumps/json_value_path.cpp:36-108 | an accepted non-empty text is the canonical spelling of the segments read from it |
| JsonValuePathProperties.RenderedIsRead | src/flumps/json_value_path.cpp:36-108 | the canonical spelling of any segments reads back as those segments |
| JsonValuePathProperties.RenderThenRead | src/flumps/json_value_path.cpp:36-108 | reading the canonical spelling of segments gives a path with exactly those segments |
| JsonValuePathProperties.SamePathIffSameText | src/flumps/json_value_path.cpp:118-121 | two accepted texts give equal paths exactly when they are the same text, or are `""` and `"."` |
| JsonValuePathProperties.RootPaths | src/flumps/json_value_path.cpp:118-121 | "" and "." both give no segments, so the two paths compare equal |
| JsonValuePathProperties.PathOfKey | test/flumps/json_value_path_test.cpp:30-36 | the single-key test |
| JsonValuePathProperties.PathOfArray | test/flumps/json_value_path_test.cpp:37-42 | the single-array test |
| JsonValuePathProperties.PathOfTwoKeys | test/flumps/json_value_path_test.cpp:43-51 | the key-then-key test |
| JsonValuePathProperties.PathOfKeyThenArray | test/flumps/json_value_path_test.cpp:52-59 | the key-then-array test |
| JsonValuePathProperties.PathOfTwoArrays | test/flumps/json_value_path_test.cpp:60-66 | the array-then-array test |
| JsonValuePathProperties.PathErrorExamples | test/flumps/json_value_path_test.cpp:67-74 | the six texts of the error test are rejected, and so are `..` and `.abc.`, where a dot has no key after it |
| JsonGrammar.SkipWs | include/flumps/detail/json_parser_impl.h:105-112 | stops at the first byte that is not space, tab, CR or LF, or at the end |
| JsonGrammar.DigitsEnd | include/flumps/detail/json_parser_impl.h:317 | stops at the first byte that is not a decimal digit, or at the end |
| JsonGrammar.NumberLex | include/flumps/detail/json_parser_impl.h:303-344 | an accepted number is not empty; an error lies beyond its first byte |
| JsonGrammar.FractionLex | include/flumps/detail/json_parser_impl.h:320-329 | a fraction ends within the text; an error lies after the '.' |
| JsonGrammar.ExponentLex | include/flumps/detail/json_parser_impl.h:331-343 | an exponent ends within the text; an error lies after the 'e' |
| JsonGrammar.StringScan | include/flumps/detail/json_parser_impl.h:269-302 | an accepted string ends just after a closing quote |
| JsonGrammar.StringLex | include/flumps/detail/json_parser_impl.h:269-302 | an accepted string spans at least its two quotes and ends with one |
| JsonGrammar.Primitive | include/flumps/detail/json_parser_impl.h:116-147 | success reports exactly one primitive value and moves forward; failure reports nothing |
| JsonGrammar.MemberKey | include/flumps/detail/json_parser_impl.h:207-221 | success reports exactly one key and reads at least `"":`; failure reports at most the key |
| JsonGrammar.Element | include/flumps/detail/json_parser_impl.h:92-104 | an accepted element moves forward |
| JsonGrammar.Value | include/flumps/detail/json_parser_impl.h:113-159 | an accepted value moves forward |
| JsonGrammar.ObjectValue | include/flumps/detail/json_parser_impl.h:160-206 | an accepted object moves forward |
| JsonGrammar.ArrayValue | include/flumps/detail/json_parser_impl.h:222-268 | an accepted array moves forward |
| JsonGrammar.ParseReference | include/flumps/detail/json_parser_impl.h:56-74 | a successful parse consumes the whole text |
| JsonGrammarProperties.ElementProtocol | include/flumps/detail/json_parser_impl.h:92-104 | an element's events walk the visitor protocol from "value expected" to that value completed |
| JsonGrammarProperties.ValueProtocol | include/flumps/detail/json_parser_impl.h:113-159 | likewise for a value |
| JsonGrammarProperties.ObjectProtocol | include/flumps/detail/json_parser_impl.h:160-206 | likewise for an object: start, then key and value pairs, then end |
| JsonGrammarProperties.ArrayProtocol | include/flumps/detail/json_parser_impl.h:222-268 | likewise for an array |
| JsonGrammarProperties.ParseProtocol | include/flumps/detail/json_parser_impl.h:56-74 | the events of a successful parse are exactly one well-nested root value under the visitor protocol |
| JsonGrammarProperties.ParseSpans | include/flumps/detail/json_parser_impl.h:113-268 | every event's span lies in the text: strings and keys between their quotes, numbers as number tokens, literals as themselves, starts at their bracket, ends spanning from bracket to bracket |
| JsonNumberProperties.IntEndShape | include/flumps/detail/json_parser_impl.h:311-318 | the integer part is a '0' or a non-zero digit followed by digits |
| JsonNumberProperties.ExponentSound | include/flumps/detail/json_parser_impl.h:331-343 | an accepted exponent has the RFC 8259 form |
| JsonNumberProperties.FractionSound | include/flumps/detail/json_parser_impl.h:320-343 | an accepted fraction and exponent have the RFC 8259 form |
| JsonNumberProperties.NumberLexSound | include/flumps/detail/json_parser_impl.h:303-344 | every accepted number is a number token of section 6 of RFC 8259 |
| JsonNumberProperties.ExponentComplete | include/flumps/detail/json_parser_impl.h:331-343 | an exponent of the RFC form is accepted to its end |
| JsonNumberProperties.FractionComplete | include/flumps/detail/json_parser_impl.h:320-343 | a fraction of the RFC form is accepted to its end |
| JsonNumberProperties.IntComplete | include/flumps/detail/json_parser_impl.h:311-318 | an integer part of the RFC form is read to its end |
| JsonNumberProperties.NumberLexComplete | include/flumps/detail/json_parser_impl.h:303-344 | a number token followed by nothing that could extend it is accepted, ending exactly where the token ends |
| JsonNumberProperties.NumberLexCharacterised | include/flumps/detail/json_parser_impl.h:303-344 | the lexer accepts a span exactly when it is a number token that nothing extends |
| JsonStringGrammar.PairsDoneWellPaired | src/flumps/string_helpers.cpp:181-200 | the checker fed a string's `\u` code points and ticked once more at the end succeeds exactly when every high surrogate is directly followed by a low one and no low surrogate stands alone (after a pending high surrogate, exactly when the first code point is a low one and the rest pair up) |
| JsonStringGrammar.ScanCharacterised | include/flumps/detail/json_parser_impl.h:272-301 | from any position, with the fresh checker before any `\u` escape or any checker state after one, the scan ends just after the quote at `e` exactly when the bytes before it form a body of raw UTF-8 without control bytes, quotes or backslashes, short escapes and four-digit `\u` escapes, and the checker fed the body's `\u` code points ends with no low surrogate awaited |
| JsonStringGrammar.StringLexCharacterised | include/flumps/detail/json_parser_impl.h:269-302 | a string from its opening quote is accepted, ending at `e`, exactly when `e - 1` holds the first quote that closes a well-formed body and the body's `\u` surrogates pair up |
| JsonStringGrammar.ScanRawCharacterised | include/flumps/detail/json_parser_impl.h:274-296 | the case of `ScanCharacterised` at a byte that is neither a quote nor a backslash: the scan ends at `e` exactly when the byte is 0x20 or above, a UTF-8 sequence decodes there, and the body closes at `e` after it |
| JsonStringGrammar.ScanShortEscapeCharacterised | include/flumps/detail/json_parser_impl.h:278-296 | the case at a backslash followed by one of the escape letters other than `u`: the scan ends at `e` exactly when the body closes at `e` after the two bytes |
| JsonStringGrammar.ScanHexEscapeCharacterised | include/flumps/detail/json_parser_impl.h:285-292 | the case at `\u`: the scan ends at `e` exactly when four hex digits follow, the checker accepts their code unit, and the body closes at `e` after the six bytes, from the checker's new state |
| JsonStringGrammar.BodyHasNoControlBytes | include/flumps/detail/json_parser_impl.h:275-276 | no byte of a well-formed body is a control byte below 0x20 |
| JsonStringGrammar.PlainBodyIsUtf8 | include/flumps/detail/json_parser_impl.h:277 | a body without quotes, backslashes or control bytes is well formed exactly when it is valid UTF-8 |
| JsonStringGrammar.StringLexNoControlBytes | include/flumps/detail/json_parser_impl.h:275-276 | every byte strictly between the quotes of an accepted string is at least 0x20 |
| JsonDepthProperties.TextFrames | include/flumps/detail/json_parser_impl.h:56-87 | the frames a text needs, counted along the run without a limit, are at least the root's one |
| JsonDepthProperties.ElementWithinLimit | include/flumps/detail/json_parser_impl.h:92-112 | an element read under a limit it fits in runs as without a limit; one that succeeds under the limit ran as without it and fits in it |
| JsonDepthProperties.ValueWithinLimit | include/flumps/detail/json_parser_impl.h:113-159 | the same for a value |
| JsonDepthProperties.ObjectWithinLimit | include/flumps/detail/json_parser_impl.h:160-206 | the same for an object; `{}` needs no frame |
| JsonDepthProperties.MembersWithinLimit | include/flumps/detail/json_parser_impl.h:169-173 | the same for the members from a key on |
| JsonDepthProperties.MemberValueWithinLimit | include/flumps/detail/json_parser_impl.h:170-188 | the same for a member's element, read on a frame of its own that `inc_depth` checks against the limit |
| JsonDepthProperties.AfterMemberWithinLimit | include/flumps/detail/json_parser_impl.h:179-197 | the same after a member |
| JsonDepthProperties.ArrayWithinLimit | include/flumps/detail/json_parser_impl.h:222-268 | the same for an array; `[]` needs no frame |
| JsonDepthProperties.ElementsWithinLimit | include/flumps/detail/json_parser_impl.h:231-248 | the same for an array element, read on a frame of its own that `inc_depth` checks against the limit |
| JsonDepthProperties.AfterElementWithinLimit | include/flumps/detail/json_parser_impl.h:240-257 | the same after an array element |
| JsonDepthProperties.DepthLimitCharacterised | include/flumps/detail/json_parser_impl.h:80-87 | a text parses under limit `L` exactly when it parses without a limit and needs at most `L` frames (any text when `L` is 0); then, and whenever it needs at most `L` frames, the limit changes neither the events nor where the parse ends |
| JsonEvents.NothingAfterRoot | include/flumps/detail/json_parser_impl.h:64-65 | the protocol accepts no event once the root value is complete |
| JsonParser.ReferenceIsResume | include/flumps/detail/json_parser_impl.h:56-62 | the whole parse is what a stack holding one fresh frame has left to do |
| JsonParser.ResumeAtEnd | include/flumps/detail/json_parser_impl.h:67 | a ready stack at the end of the text is a truncated-input failure |
| JsonParser.EmptyObjectRun | include/flumps/detail/json_parser_impl.h:174-202 | `{}` reports a start and an end spanning both braces, and pushes no frame |
| JsonParser.EmptyArrayRun | include/flumps/detail/json_parser_impl.h:235-264 | `[]` reports a start and an end spanning both brackets, and pushes no frame |
| JsonParser.JsonParserImpl.constructor | include/flumps/detail/json_parser_impl.h:42-49 | keeps the depth limit; the stack and the event log are empty |
| JsonParser.JsonParserImpl.IncDepth | include/flumps/detail/json_parser_impl.h:80-87 | pushes a fresh frame and answers whether the stack then fits the limit (a limit of 0 means unlimited) |
| JsonParser.JsonParserImpl.DecDepth | include/flumps/detail/json_parser_impl.h:88-90 | pops the top frame |
| JsonParser.JsonParserImpl.ChompWhitespace | include/flumps/detail/json_parser_impl.h:105-109 | the loop computes SkipWs |
| JsonParser.JsonParserImpl.ParseNumber | include/flumps/detail/json_parser_impl.h:303-344 | computes NumberLex |
| JsonParser.JsonParserImpl.ParseFraction | include/flumps/detail/json_parser_impl.h:320-329 | computes FractionLex |
| JsonParser.JsonParserImpl.ParseExponent | include/flumps/detail/json_parser_impl.h:331-343 | computes ExponentLex |
| JsonParser.JsonParserImpl.ChompDigits | include/flumps/detail/json_parser_impl.h:317 | the loop computes DigitsEnd |
| JsonParser.JsonParserImpl.ParseString | include/flumps/detail/json_parser_impl.h:269-302 | the loop with its checker object computes StringLex |
| JsonParser.JsonParserImpl.ReadCharacter | include/flumps/detail/json_parser_impl.h:274-277 | one raw UTF-8 character: it stops on a decoding error, otherwise it moves on as StringScan does |
| JsonParser.JsonParserImpl.ReadEscape | include/flumps/detail/json_parser_impl.h:278-293 | one escape: it stops on a bad escape, otherwise the checker's new state continues StringScan |
| JsonParser.JsonParserImpl.ParseMemberKey | include/flumps/detail/json_parser_impl.h:207-221 | reports MemberKey's events and returns where it ends or fails; the stack is unchanged |
| JsonParser.JsonParserImpl.EndObject | include/flumps/detail/json_parser_impl.h:199-202 | reports an object end spanning from the frame's '{' through the '}' |
| JsonParser.JsonParserImpl.EndArrayAt | include/flumps/detail/json_parser_impl.h:259-264 | reports an array end spanning from the frame's '[' through the ']' |
| JsonParser.JsonParserImpl.ReadMember | include/flumps/detail/json_parser_impl.h:184-188 | reads a key and pushes a frame for its value; what remains is the reference's rest of the members |
| JsonParser.JsonParserImpl.ReadElement | include/flumps/detail/json_parser_impl.h:245-248 | pushes a frame for the next element; what remains is the reference's rest of the elements |
| JsonParser.JsonParserImpl.ParseObject | include/flumps/detail/json_parser_impl.h:160-206 | reports the reference's events for the object so far, and what the stack still has to do is the rest of the reference |
| JsonParser.JsonParserImpl.OpenObject | include/flumps/detail/json_parser_impl.h:163-178 | the `initial` case against ObjectValue |
| JsonParser.JsonParserImpl.ObjectMemberRead | include/flumps/detail/json_parser_impl.h:179-198 | the `member_read` case against what follows a member |
| JsonParser.JsonParserImpl.ParseArray | include/flumps/detail/json_parser_impl.h:222-268 | the same for arrays |
| JsonParser.JsonParserImpl.OpenArray | include/flumps/detail/json_parser_impl.h:225-239 | the `initial` case against ArrayValue |
| JsonParser.JsonParserImpl.ArrayElementRead | include/flumps/detail/json_parser_impl.h:240-258 | the `element_read` case against what follows an element |
| JsonParser.JsonParserImpl.ParsePrimitive | include/flumps/detail/json_parser_impl.h:116-147 | reports Primitive's events and returns where it ends or fails |
| JsonParser.JsonParserImpl.ParseValue | include/flumps/detail/json_parser_impl.h:113-159 | reports the reference's events; a collection keeps its frame, a primitive completes it |
| JsonParser.JsonParserImpl.ParseElement | include/flumps/detail/json_parser_impl.h:92-104 | a throw ends the reference at the same offset; a return leaves the rest of the reference to the new stack |
| JsonParser.JsonParserImpl.Step | include/flumps/detail/json_parser_impl.h:61-66 | one turn of the loop moves forward and keeps the stack ready and within the limit |
| JsonParser.JsonParserImpl.ParseJson | include/flumps/detail/json_parser_impl.h:56-74 | the events reported are exactly the reference's; completes exactly when the reference succeeds, then returns true with an empty stack; otherwise a parse error at the offset where the reference stops |
| JsonParserExamples.ExponentWithoutDigits | test/flumps/json_parser_test.cpp:101-117 | `-1e` is rejected, at offset 3 |
| JsonParserExamples.FractionWithoutDigits | test/flumps/json_parser_test.cpp:101-117 | `1.` is rejected, at offset 2 |
| JsonParserExamples.BareMinus | include/flumps/detail/json_parser_impl.h:306-310 | `-` alone is rejected |
| JsonParserExamples.LeadingZero | include/flumps/detail/json_parser_impl.h:313-319 | `01` reports the number 0, then fails at offset 1 |
| JsonParserExamples.FullNumber | test/flumps/json_parser_test.cpp:66-99 | a number with a sign, a fraction and an exponent is one value |
| JsonParserExamples.EmptyInput | include/flumps/detail/json_parser_impl.h:56-74 | an empty text is rejected |
| JsonParserExamples.WhitespaceOnly | include/flumps/detail/json_parser_impl.h:56-74 | whitespace alone is rejected |
| JsonParserExamples.TrailingCommaInArray | test/flumps/json_parser_test.cpp:101-117 | `[1,]` is rejected |
| JsonParserExamples.MissingComma | test/flumps/json_parser_test.cpp:101-117 | two array elements without a comma are rejected |
| JsonParserExamples.WhitespaceAroundElements | test/flumps/json_parser_test.cpp:66-99 | whitespace around elements and separators is accepted |
| JsonParserExamples.TrailingCommaInObject | test/flumps/json_parser_test.cpp:101-117 | `{"a":1,}` is rejected |
| JsonParserExamples.MemberWithoutKey | test/flumps/json_parser_test.cpp:101-117 | `" [  1 , 2, { 2}] "` is rejected at the `2` (offset 13), after the events up to the object's start |
| JsonParserExamples.KeyWithoutColon | test/flumps/json_parser_test.cpp:101-117 | `" [  1 , 2, { \"123\" }] "` is rejected at the `}` (offset 19), after the key's event |
| JsonParserExamples.MissingCommaInObject | test/flumps/json_parser_test.cpp:101-117 | `{"a":1"b":2}` is rejected at the second key's quote (offset 6) |
| JsonParserExamples.SpaceBetweenMembers | test/flumps/json_parser_test.cpp:101-117 | `{"a":1 "b":2}` reports the object start, the key and the number, then is rejected at the second key's quote (offset 7) |
| JsonParserExamples.StringAfterElement | test/flumps/json_parser_test.cpp:101-117 | `[1"a"]` is rejected at the quote (offset 2) |
| JsonParserExamples.DepthLimitOneRejectsNesting | include/flumps/detail/json_parser_impl.h:80-87 | with a depth limit of 1 a non-empty array is rejected |
| JsonParserExamples.DepthLimitOneAcceptsEmptyArray | include/flumps/detail/json_parser_impl.h:225-239 | with a depth limit of 1, `[]` is accepted, since it pushes no frame |
| JsonParserExamples.InterruptedPairQuirk | include/flumps/detail/json_parser_impl.h:269-302 | the parser accepts the string `"\uD800x\uDC00"` while the content decoder rejects it |
| JsonCallbackVisitor.FindChild | include/flumps/detail/json_callback_visitor_impl.h:95-100 | the first child that fits, or none when no child fits |
| JsonCallbackVisitor.AddChildValid | include/flumps/detail/json_callback_visitor_impl.h:101-104 | appending a missing child of the kind the parent calls for keeps the trie valid |
| JsonCallbackVisitor.Register | include/flumps/detail/json_callback_visitor_impl.h:88-133 | registration keeps the trie valid |
| JsonCallbackVisitor.ChildValid | include/flumps/detail/json_callback_visitor_impl.h:95-117 | find-or-create keeps the trie valid and gives a later node that fits |
| JsonCallbackVisitor.DescendValid | include/flumps/detail/json_callback_visitor_impl.h:93-131 | the walk keeps the trie valid and ends on a node that is not an Object node |
| JsonCallbackVisitor.DescendExtends | include/flumps/detail/json_callback_visitor_impl.h:93-131 | the walk only appends nodes and child links, and keeps every callback |
| JsonCallbackVisitor.RegisterKeepsPaths | include/flumps/detail/json_callback_visitor_impl.h:88-133 | the path text of every existing node is unchanged |
| JsonCallbackVisitor.RegisterKeepsCursor | include/flumps/detail/json_callback_visitor_impl.h:88-133 | a valid cursor stays valid across a registration |
| JsonCallbackVisitor.Fired | include/flumps/detail/json_callback_visitor_impl.h:192-198 | one call per callback of the current node, in order, with the path text or "." when it is empty |
| JsonCallbackVisitor.StepBack | include/flumps/detail/json_callback_visitor_impl.h:179-183 | stepping back from a key's value keeps the cursor valid and the overflow unchanged |
| JsonCallbackVisitor.StartStep | include/flumps/detail/json_callback_visitor_impl.h:199-225 | keeps the cursor valid |
| JsonCallbackVisitor.KeyStep | include/flumps/detail/json_callback_visitor_impl.h:137-159 | keeps the cursor valid |
| JsonCallbackVisitor.PrimitiveStep | include/flumps/detail/json_callback_visitor_impl.h:169-189 | keeps the cursor valid |
| JsonCallbackVisitor.ClosePath | include/flumps/detail/json_callback_visitor_impl.h:234-239 | cutting a matched collection's repr (and the lone leading dot) gives the parent's path text |
| JsonCallbackVisitor.EndStep | include/flumps/detail/json_callback_visitor_impl.h:226-267 | keeps the cursor valid |
| JsonCallbackVisitor.EndStepCases | include/flumps/detail/json_callback_visitor_impl.h:226-267 | the three branches: a matched end moves to the parent, fires and steps back; the last pending marker fires in place and steps back; otherwise one marker goes, plus a pending key |
| JsonCallbackVisitor.JsonCallbackVisitorImpl.constructor | include/flumps/detail/json_callback_visitor_impl.h:82-87 | a trie of the root alone, the cursor on it, no calls |
| JsonCallbackVisitor.JsonCallbackVisitorImpl.FindChildNode | include/flumps/detail/json_callback_visitor_impl.h:95-100 | the loop computes FindChild |
| JsonCallbackVisitor.JsonCallbackVisitorImpl.InsertChild | include/flumps/detail/json_callback_visitor_impl.h:95-105 | the arena and child become those of find-or-create |
| JsonCallbackVisitor.JsonCallbackVisitorImpl.DescendSegment | include/flumps/detail/json_callback_visitor_impl.h:94-130 | one segment of the walk: the rest of the walk from the new node equals the walk from the old one |
| JsonCallbackVisitor.JsonCallbackVisitorImpl.DescendPath | include/flumps/detail/json_callback_visitor_impl.h:92-131 | the loop computes Descend |
| JsonCallbackVisitor.JsonCallbackVisitorImpl.RegisterCallback | include/flumps/detail/json_callback_visitor_impl.h:88-133 | the arena becomes Register's and stays valid |
| JsonCallbackVisitor.JsonCallbackVisitorImpl.ExecCallbacks | include/flumps/detail/json_callback_visitor_impl.h:192-198 | appends Fired to the call log |
| JsonCallbackVisitor.JsonCallbackVisitorImpl.StepBackUp | include/flumps/detail/json_callback_visitor_impl.h:179-183 | the cursor becomes StepBack's |
| JsonCallbackVisitor.JsonCallbackVisitorImpl.DoCollectionStart | include/flumps/detail/json_callback_visitor_impl.h:199-225 | the cursor becomes StartStep's |
| JsonCallbackVisitor.JsonCallbackVisitorImpl.DoCollectionEnd | include/flumps/detail/json_callback_visitor_impl.h:226-267 | cursor and calls become EndStep's |
| JsonCallbackVisitor.JsonCallbackVisitorImpl.OnObjectStart | include/flumps/detail/json_callback_visitor_impl.h:134-136 | StartStep with the object traits |
| JsonCallbackVisitor.JsonCallbackVisitorImpl.OnArrayStart | include/flumps/detail/json_callback_visitor_impl.h:163-165 | StartStep with the array traits |
| JsonCallbackVisitor.JsonCallbackVisitorImpl.OnObjectEnd | include/flumps/detail/json_callback_visitor_impl.h:160-162 | EndStep with the object traits |
| JsonCallbackVisitor.JsonCallbackVisitorImpl.OnArrayEnd | include/flumps/detail/json_callback_visitor_impl.h:166-168 | EndStep with the array traits |
| JsonCallbackVisitor.JsonCallbackVisitorImpl.OnObjectKey | include/flumps/detail/json_callback_visitor_impl.h:137-159 | the cursor becomes KeyStep's |
| JsonCallbackVisitor.JsonCallbackVisitorImpl.OnPrimitiveValue | include/flumps/detail/json_callback_visitor_impl.h:169-189 | cursor and calls become PrimitiveStep's |
| JsonCallbackVisitorProperties.LookupStaysFound | include/flumps/detail/json_callback_visitor_impl.h:88-133 | in a grown trie, a path found before names the same node |
| JsonCallbackVisitorProperties.DescendFound | include/flumps/detail/json_callback_visitor_impl.h:92-131 | the walk ends at the node the path then names |
| JsonCallbackVisitorProperties.DescendExisting | include/flumps/detail/json_callback_visitor_impl.h:95-129 | a path the trie already has is walked without creating anything |
| JsonCallbackVisitorProperties.DescendMissing | include/flumps/detail/json_callback_visitor_impl.h:101-127 | a path the trie lacks ends at a node the walk created |
| JsonCallbackVisitorProperties.RegisterAppends | include/flumps/detail/json_callback_visitor_impl.h:88-133 | after registration the path names a node whose callbacks are the old ones plus the id; every other node keeps its callbacks |
| JsonCallbackVisitorProperties.RegisterKeepsLookups | include/flumps/detail/json_callback_visitor_impl.h:88-133 | every path the trie had still names the same node |
| JsonCallbackVisitorProperties.OverflowIsUnmatchedScopes | include/flumps/detail/json_callback_visitor_impl.h:199-225 | `overflow_` holds the markers of the innermost scopes the trie does not match, one each, in order |
| JsonCallbackVisitorProperties.StepBackCloses | include/flumps/detail/json_callback_visitor_impl.h:179-183 | stepping back closes a matched key scope once its value is complete |
| JsonCallbackVisitorProperties.StartTracks | include/flumps/detail/json_callback_visitor_impl.h:199-225 | a collection start opens its scope in the tracked cursor |
| JsonCallbackVisitorProperties.KeyTracks | include/flumps/detail/json_callback_visitor_impl.h:137-159 | a key opens its scope in the tracked cursor |
| JsonCallbackVisitorProperties.PrimitiveTracks | include/flumps/detail/json_callback_visitor_impl.h:169-189 | a primitive fires at its node and closes a pending key |
| JsonCallbackVisitorProperties.EndTracks | include/flumps/detail/json_callback_visitor_impl.h:226-267 | an end closes its scope, and a pending key with it |
| JsonCallbackVisitorProperties.DeliverTracks | include/flumps/detail/json_callback_visitor_impl.h:134-189 | every event the protocol accepts satisfies the handler's assertion, and moves the cursor to the one for the new scopes |
| JsonCallbackVisitorProperties.DeliverAllTracks | include/flumps/detail/json_callback_visitor_impl.h:134-189 | the same for any event stream the protocol accepts |
| JsonCallbackVisitorProperties.ReadyAfterRootValue | include/flumps/detail/json_callback_visitor_impl.h:134-267 | after a whole root value the cursor is back at the root, with an empty path and no overflow |
| JsonCallbackVisitorProperties.LookupEnters | include/flumps/detail/json_callback_visitor_impl.h:134-183 | from a matched cursor, the scopes of a path lead to the node Lookup finds, with the path text extended by the path's spelling; where Lookup finds none, a marker stays pending |
| JsonCallbackVisitorProperties.PathScopesTrack | include/flumps/detail/json_callback_visitor_impl.h:134-198 | for the scopes of a value whose path is P, the cursor is on the node P names, with nothing pending and the path text the callbacks get equal to the canonical spelling of P; if the trie has no node for P a marker is pending, so no callback runs |
| JsonCallbackVisitorProperties.RegisteredCallbackRuns | include/flumps/detail/json_callback_visitor_impl.h:88-198 | after `register_callback(P, id)`, a primitive value at P runs the callbacks P had before, then `id`, each with the canonical spelling of P |
| JsonCallbackVisitorProperties.ReadyAfterParse | include/flumps/detail/json_callback_visitor_impl.h:134-267 | the same for the events of any parse, so no assertion of the dispatcher fails on parser output |
| JsonCallbackVisitorExamples.RegisterTestPaths | test/flumps/json_callback_visitor_test.cpp:55-76 | registering callbacks 1 to 7 for `.`, `.abc`, `.[]`, `.abc.efg`, `.abc[]`, `.[].abc` and `.[][]` in that order builds exactly the ten-node trie `TEST_TRIE`, which is valid |
| JsonCallbackVisitorExamples.StringAtRoot | test/flumps/json_callback_visitor_test.cpp:130-141 | on the events of `"abc"` only callback 1 runs, once: String, path `.`, the three bytes inside the quotes |
| JsonCallbackVisitorExamples.LiteralsInRootArray | test/flumps/json_callback_visitor_test.cpp:176-190 | on the events of `[true,false,null]` callback 3 runs for each literal at `.[]`, then callback 1 for the whole array at `.`, in that order, and the cursor is back at the root |
| JsonCallbackVisitorExamples.UnknownKeyInRootObject | include/flumps/detail/json_callback_visitor_impl.h:137-159 | a key that no Key child of the root object's node carries pushes a key marker instead of moving the cursor |
| JsonCallbackVisitorExamples.QuietStepDelivers | include/flumps/detail/json_callback_visitor_impl.h:137-267 | with the cursor below the trie (`overflow_` not empty), every handler runs no callback and changes only `overflow_`, as `QuietStep` says: a collection or a key pushes its marker, a value pops a pending key marker, and an end pops its own marker and a key marker under it; an end that empties `overflow_` is not covered, because it runs the node's callbacks |
| JsonCallbackVisitorExamples.QuietBelowTrie | include/flumps/detail/json_callback_visitor_impl.h:137-267 | a run of events that `QuietRun` accepts, delivered below the trie, runs no callback and leaves the node and path text as they were and `overflow_` as `QuietRun` computes; whatever follows is then delivered from there |
| JsonCallbackVisitorExamples.DefValuesQuiet | test/flumps/json_callback_visitor_test.cpp:144-155 | each member value of `{"def":[{"xyz":[]}],"def":{"xyz":[3]}}`, read below the unknown key `def`, leaves `overflow_` empty again |
| JsonCallbackVisitorExamples.NothingBelowUnknownKeys | test/flumps/json_callback_visitor_test.cpp:144-155 | on the events of `{"def":[{"xyz":[]}],"def":{"xyz":[3]}}` only callback 1 runs, once, for the whole object at `.`, and the cursor is back at the root |
| JsonEchoVisitor.Echo | include/flumps/detail/json_echo_visitor_impl.h:60-127 | fails exactly for an end event with only the root entry left; the stack never empties |
| JsonEchoVisitor.EchoAll | include/flumps/detail/json_echo_visitor_impl.h:60-127 | the stack never empties |
| JsonEchoVisitor.JsonEchoVisitorImpl.constructor | include/flumps/detail/json_echo_visitor_impl.h:51-56 | the indent is kept; the output is empty and the stack holds the root entry |
| JsonEchoVisitor.JsonEchoVisitorImpl.OutputChar | include/flumps/detail/json_echo_visitor_impl.h:45-48 | appends the byte |
| JsonEchoVisitor.JsonEchoVisitorImpl.OutputString | include/flumps/detail/json_echo_visitor_impl.h:42-44 | appends the bytes |
| JsonEchoVisitor.JsonEchoVisitorImpl.OutputNewLine | include/flumps/detail/json_echo_visitor_impl.h:34-41 | appends a line feed and one indent per stack entry after the first |
| JsonEchoVisitor.JsonEchoVisitorImpl.StackPush | include/flumps/detail/json_echo_visitor_impl.h:136-138 | pushes the state |
| JsonEchoVisitor.JsonEchoVisitorImpl.SetBack | include/flumps/detail/json_echo_visitor_impl.h:139-141 | replaces the top state |
| JsonEchoVisitor.JsonEchoVisitorImpl.SettleBack | include/flumps/detail/json_echo_visitor_impl.h:91-93 | the three `set_back` lines after a completed value |
| JsonEchoVisitor.JsonEchoVisitorImpl.DoStart | include/flumps/detail/json_echo_visitor_impl.h:60-71 | the start handlers' output and stack |
| JsonEchoVisitor.JsonEchoVisitorImpl.OnObjectStart | include/flumps/detail/json_echo_visitor_impl.h:60-71 | prints `{` after any separator and opens an object entry |
| JsonEchoVisitor.JsonEchoVisitorImpl.OnArrayStart | include/flumps/detail/json_echo_visitor_impl.h:95-106 | prints `[` after any separator and opens an array entry |
| JsonEchoVisitor.JsonEchoVisitorImpl.OnObjectKey | include/flumps/detail/json_echo_visitor_impl.h:72-86 | prints `"key": `, preceded by a separator after the first key |
| JsonEchoVisitor.JsonEchoVisitorImpl.DoEnd | include/flumps/detail/json_echo_visitor_impl.h:87-94 | the end handlers' output and stack |
| JsonEchoVisitor.JsonEchoVisitorImpl.OnObjectEnd | include/flumps/detail/json_echo_visitor_impl.h:87-94 | pops, prints a new line and `}`, and settles the enclosing entry |
| JsonEchoVisitor.JsonEchoVisitorImpl.OnArrayEnd | include/flumps/detail/json_echo_visitor_impl.h:107-114 | pops, prints a new line and `]`, and settles the enclosing entry |
| JsonEchoVisitor.JsonEchoVisitorImpl.OnPrimitiveValue | include/flumps/detail/json_echo_visitor_impl.h:115-127 | prints the value (strings quoted) after any array separator, and settles the entry |
| JsonEchoVisitorProperties.CompleteStack | include/flumps/detail/json_echo_visitor_impl.h:91-93 | settling the stack of some levels gives the stack of those levels with the value complete |
| JsonEchoVisitorProperties.KeyTracks | include/flumps/detail/json_echo_visitor_impl.h:72-86 | a key is only ever reported in an object, and its stack follows the levels |
| JsonEchoVisitorProperties.EndTracks | include/flumps/detail/json_echo_visitor_impl.h:87-94 | an end pops the level it closes and completes the enclosing one |
| JsonEchoVisitorProperties.EchoTracks | include/flumps/detail/json_echo_visitor_impl.h:60-127 | for every event the protocol accepts, the printer succeeds and its stack is the stack of the new levels |
| JsonEchoVisitorProperties.NewLineDepth | include/flumps/detail/json_echo_visitor_impl.h:34-41 | a new line is indented once per open level |
| JsonEchoVisitorProperties.ValueNeverAfterValueInObject | include/flumps/detail/json_echo_visitor_impl.h:64-67 | when a value starts, the top entry is never `in_object`, so the start handlers' `in_object` branch is dead; it is `in_array` exactly after an earlier element |
| JsonEchoVisitorProperties.KeySeparated | include/flumps/detail/json_echo_visitor_impl.h:73-79 | a key gets a separator exactly when an earlier member exists |
| JsonEchoVisitorProperties.StartWrites | include/flumps/detail/json_echo_visitor_impl.h:60-71 | a start prints the expected text |
| JsonEchoVisitorProperties.KeyWrites | include/flumps/detail/json_echo_visitor_impl.h:72-86 | a key prints the expected text |
| JsonEchoVisitorProperties.PrimitiveWrites | include/flumps/detail/json_echo_visitor_impl.h:115-127 | a primitive prints the expected text |
| JsonEchoVisitorProperties.EndWrites | include/flumps/detail/json_echo_visitor_impl.h:87-94 | an end prints the expected text |
| JsonEchoVisitorProperties.EchoWrites | include/flumps/detail/json_echo_visitor_impl.h:60-127 | any event the protocol accepts prints the expected text |
| JsonEchoVisitorProperties.EchoAllWrites | include/flumps/detail/json_echo_visitor_impl.h:60-127 | any accepted event stream prints the expected layout and leaves the stack of the resulting levels |
| JsonEchoVisitorProperties.PrintsOneValue | include/flumps/detail/json_echo_visitor_impl.h:60-127 | a whole root value prints the expected layout and leaves the stack with the root entry alone |
| JsonEchoVisitorProperties.PrintsParse | include/flumps/detail/json_echo_visitor_impl.h:60-127 | the same for the events of any successful parse |
| JsonEchoVisitorProperties.EmptyArrayText | include/flumps/detail/json_echo_visitor_impl.h:95-114 | an empty array prints as `[`, a new line, a new line and `]`, not as `[]` |

## Left out

- The pretty-print flag is always set by the echo visitor's constructor, so the branches that skip new lines and spaces when it is off are not modelled.
- The output iterator of the echo visitor and of the string helpers is a byte sequence that grows.
- Handlers receive byte sequences or offsets into the parsed buffer instead of pointer and length pairs.
- JsonEchoVisitor.JsonEchoVisitorImpl.DoEnd: requires at least two stack entries, because popping the root entry and then reading the back of an empty stack is undefined behaviour in C++. OnObjectEnd and OnArrayEnd inherit this; the parser never reaches it (PrintsParse).
- Callbacks are numeric ids, and running one is recorded as a `Call` entry in the dispatcher's log. What user callbacks do, and any exception one throws, is not modelled.
- Exceptions thrown by a visitor and the parser's rethrow that adds the offset to them are not modelled. The parser's visitor is its event log.
- Error message texts and the offset formatting are not modelled. An error is its kind from the exception hierarchy, plus the offset as a number.
- The nodes of the callback trie are owned through `std::unique_ptr`. They are modelled as an arena with parent and child indices, so pointer aliasing is not captured.
- The C++ `assert`s at the head of the dispatcher's handlers become preconditions (KeyAllowed, ValueAllowed, EndAllowed). ReadyAfterParse and DeliverAllTracks prove the parser's events always satisfy them.
- `reserve` calls on strings and vectors only affect capacity, and are not modelled.
- The `get_visitor` accessor and the thin public wrappers around the implementation classes are not part of this model.
- Also outside this model:
  - the command-line program and its file I/O;
  - the names and bitmask composites of the JSON value types;
  - the `depth_` field of the parser, which is never read.
- Code points are unbounded naturals. The code never gets near the range of `uint32_t`: at most 21 bits from UTF-8 and 16 from a hex escape. So no wrap-around is modelled.
- `char` bytes are modelled as unsigned bytes. The source's signed comparisons against byte ranges are written as the equivalent unsigned ranges.
- JsonGrammar.Element, JsonGrammar.Value, JsonGrammar.ObjectValue and JsonGrammar.ArrayValue: their own contracts state only progress. What they accept and report is stated by the Protocol, ParseSpans and NumberLex lemmas, and by ParseJson's equality with them.
- The callback sequences test has six texts. JsonCallbackVisitorExamples works through three of them: `"abc"`, `[true,false,null]` and `{"def":[{"xyz":[]}],"def":{"xyz":[3]}}`. The other three fire callbacks at nested registered paths, and none of them is worked through as a whole text. What they rely on is proved for every trie and path instead: PathScopesTrack says a value at a registered path finds the cursor on that path's node, and RegisteredCallbackRuns says its callbacks run in registration order with the path's canonical text. For the three worked texts, the events are written out as the parser reports them; they are not derived from ParseReference inside the same lemma.
