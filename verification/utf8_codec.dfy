/** The UTF-8 and UTF-16 building blocks of the string helpers
    (src/flumps/string_helpers.cpp, include/flumps/string_helpers.h):
    code point classification, decoding one UTF-8 sequence (section 3 of RFC 3629),
    encoding one code point as UTF-8, and the surrogate-pair tracker that joins two
    `\uXXXX` escapes into one code point (section 2.2 of RFC 2781). */
module Utf8Codec {
  import opened Bytes
  import opened Exception

  const MAX_CODE_POINT := 0x10FFFF

  predicate IsHighSurrogate(cp: int) { 0xD800 <= cp <= 0xDBFF }
  predicate IsLowSurrogate(cp: int) { 0xDC00 <= cp <= 0xDFFF }
  predicate IsSurrogate(cp: int) { 0xD800 <= cp <= 0xDFFF }

  datatype CodePointType = HighSurrogate | LowSurrogate | NonSurrogate

  /** `code_point_type`: classifies a code point, and throws above U+10FFFF. */
  function CodePointTypeOf(cp: nat): (r: Result<CodePointType>)
    ensures r.Err? <==> cp > MAX_CODE_POINT
    ensures r.Err? ==> r.error == UnicodeCodePointError
    ensures r.Ok? ==> (r.value == HighSurrogate <==> IsHighSurrogate(cp))
    ensures r.Ok? ==> (r.value == LowSurrogate <==> IsLowSurrogate(cp))
  {
    if cp > MAX_CODE_POINT then Err(UnicodeCodePointError)
    else if cp < 0xD800 || cp > 0xDFFF then Ok(NonSurrogate)
    else if cp <= 0xDBFF then Ok(HighSurrogate)
    else Ok(LowSurrogate)
  }

  // ---------------------------------------------------------------------------
  // Decoding one UTF-8 sequence: chomp_utf8_char
  // ---------------------------------------------------------------------------

  /** The length a lead byte announces: 0xxxxxxx -> 1, 110xxxxx -> 2,
      1110xxxx -> 3, 11110xxx -> 4, and 0 for every other pattern
      (a stray 10xxxxxx or 11111xxx). The source tests `(b & 0x80) == 0`,
      `(b & 0xE0) == 0xC0`, `(b & 0xF0) == 0xE0`, `(b & 0xF8) == 0xF0` in turn. */
  function SequenceLength(lead: byte): nat {
    if lead < 0x80 then 1
    else if 0xC0 <= lead < 0xE0 then 2
    else if 0xE0 <= lead < 0xF0 then 3
    else if 0xF0 <= lead < 0xF8 then 4
    else 0
  }

  /** The value bits of a valid lead byte (`b`, `b & 0x1F`, `b & 0x0F`, `b & 0x07`). */
  function LeadBits(lead: byte): nat
    requires SequenceLength(lead) > 0
  {
    if lead < 0x80 then lead
    else if lead < 0xE0 then lead - 0xC0
    else if lead < 0xF0 then lead - 0xE0
    else lead - 0xF0
  }

  /** `(b & 0xC0) == 0x80`: a continuation byte 10xxxxxx. */
  predicate IsContinuation(b: byte) {
    0x80 <= b < 0xC0
  }

  /** The code point built from the lead bits and the continuation bytes read so
      far: each continuation byte shifts in six more bits
      (`code_point <<= 6; code_point |= b & 0x3F`). */
  function Accumulate(bits: nat, conts: seq<byte>): nat {
    if conts == [] then bits
    else Accumulate(bits, conts[..|conts| - 1]) * 64 + conts[|conts| - 1] % 64
  }

  /** The index of the first byte of `c` that is not a continuation byte, or |c|. */
  function FirstNonContinuation(c: seq<byte>): (k: nat)
    ensures k <= |c|
    ensures forall j :: 0 <= j < k ==> IsContinuation(c[j])
    ensures k < |c| ==> !IsContinuation(c[k])
  {
    if c == [] || !IsContinuation(c[0]) then 0 else 1 + FirstNonContinuation(c[1..])
  }

  /** What `chomp_utf8_char` does at the start of `s` (the range [pos, end)):
      the code point or the exception, and how far pos has moved (on an error:
      where it stopped). An empty range yields 0 without moving. There is no
      check for overlong forms. */
  function Utf8Decode(s: seq<byte>): (c: Scan<nat>)
    ensures c.pos <= |s|
    ensures c.result.Ok? && s != [] ==> c.pos == SequenceLength(s[0]) >= 1
    ensures c.result.Ok? ==> c.result.value <= MAX_CODE_POINT && !IsSurrogate(c.result.value)
    ensures c.result.Err? ==> c.result.error != JsonParseError
  {
    if s == [] then Scan(Ok(0), 0)
    else
      var n := SequenceLength(s[0]);
      if n == 0 then Scan(Err(Utf8DecodeError), 0)
      else if |s| - 1 < n - 1 then Scan(Err(Utf8DecodeError), 1)
      else
        var k := FirstNonContinuation(s[1..n]);
        if k < n - 1 then Scan(Err(Utf8DecodeError), 1 + k)
        else
          Classified(Accumulate(LeadBits(s[0]), s[1..n]), n)
  }

  /** The last step of the decoder: the accumulated value is rejected above
      U+10FFFF and when it is a surrogate. */
  function Classified(cp: nat, n: nat): Scan<nat> {
    match CodePointTypeOf(cp)
    case Err(e) => Scan(Err(e), n)
    case Ok(t) =>
      if t != NonSurrogate then Scan(Err(Utf8DecodeError), n) else Scan(Ok(cp), n)
  }

  /** `chomp_utf8_char(&pos, end)` on the range [pos, |s|): never reads at or past
      the end, and leaves pos after the sequence, or where the error was found. */
  method ChompUtf8Char(s: seq<byte>, pos: nat) returns (r: Result<nat>, next: nat)
    requires pos <= |s|
    ensures pos <= next <= |s|
    ensures Utf8Decode(s[pos..]) == Scan(r, next - pos)
  {
    var codePoint: nat := 0;
    next := pos;
    if next != |s| {
      var additionalBytes := 0;
      var lead := s[next];
      if lead < 0x80 {
        codePoint := lead;
      } else if 0xC0 <= lead < 0xE0 {
        codePoint := lead - 0xC0;
        additionalBytes := 1;
      } else if 0xE0 <= lead < 0xF0 {
        codePoint := lead - 0xE0;
        additionalBytes := 2;
      } else if 0xF0 <= lead < 0xF8 {
        codePoint := lead - 0xF0;
        additionalBytes := 3;
      } else {
        return Err(Utf8DecodeError), next;
      }
      assert s[pos..][0] == lead;
      assert SequenceLength(lead) == additionalBytes + 1 && LeadBits(lead) == codePoint;
      next := next + 1;
      if |s| - next < additionalBytes {
        return Err(Utf8DecodeError), next;
      }
      assert s[pos..][1..additionalBytes + 1] == s[next..next + additionalBytes];
      var ok;
      ok, codePoint, next := ChompContinuations(s, next, additionalBytes, codePoint);
      if !ok {
        return Err(Utf8DecodeError), next;
      }
    }
    var cpType := CodePointTypeOf(codePoint);
    if cpType.Err? {
      return Err(cpType.error), next;
    }
    if cpType.value != NonSurrogate {
      return Err(Utf8DecodeError), next;
    }
    r := Ok(codePoint);
  }

  /** The loop of `chomp_utf8_char` over the `count` continuation bytes at
      `start`: each must be 10xxxxxx and adds its six low bits to `bits`; on a
      byte that is not, it stops there. */
  method ChompContinuations(s: seq<byte>, start: nat, count: nat, bits: nat)
    returns (ok: bool, codePoint: nat, next: nat)
    requires start + count <= |s|
    ensures var k := FirstNonContinuation(s[start..start + count]);
            ok <==> k == count
    ensures ok ==> next == start + count
    ensures ok ==> codePoint == Accumulate(bits, s[start..start + count])
    ensures !ok ==> next == start + FirstNonContinuation(s[start..start + count])
  {
    codePoint := bits;
    next := start;
    var i := 0;
    while i < count
      invariant 0 <= i <= count
      invariant next == start + i
      invariant forall j :: start <= j < next ==> IsContinuation(s[j])
      invariant codePoint == Accumulate(bits, s[start..next])
    {
      if !IsContinuation(s[next]) {
        FirstNonContinuationAt(s[start..start + count], i);
        return false, codePoint, next;
      }
      assert s[start..next + 1][..i] == s[start..next];
      codePoint := codePoint * 64 + s[next] % 64;
      next := next + 1;
      i := i + 1;
    }
    FirstNonContinuationAt(s[start..start + count], count);
    ok := true;
  }

  /** The first non-continuation byte is at k exactly when all bytes before k are
      continuation bytes and the one at k (if any) is not. */
  lemma {:induction false} FirstNonContinuationAt(c: seq<byte>, k: nat)
    requires k <= |c|
    requires forall j :: 0 <= j < k ==> IsContinuation(c[j])
    requires k < |c| ==> !IsContinuation(c[k])
    ensures FirstNonContinuation(c) == k
  {
    if k > 0 {
      FirstNonContinuationAt(c[1..], k - 1);
    }
  }

  // ---------------------------------------------------------------------------
  // Encoding one code point: code_point_to_utf8
  // ---------------------------------------------------------------------------

  /** `code_point_to_utf8`: the 1-, 2-, 3- or 4-byte layout for cp below 0x80,
      0x800, 0x10000 and 0x10FFFF; anything else, U+10FFFF itself included,
      throws. (`0xC0 | (cp >> 6)` is written `0xC0 + cp / 64`: the bits are
      disjoint.) */
  function CodePointToUtf8(cp: nat): (r: Result<seq<byte>>)
    ensures r.Ok? <==> cp < MAX_CODE_POINT
    ensures r.Err? ==> r.error == UnicodeCodePointError
    ensures r.Ok? ==> 1 <= |r.value| <= 4 && SequenceLength(r.value[0]) == |r.value|
    ensures r.Ok? ==> forall j :: 1 <= j < |r.value| ==> IsContinuation(r.value[j])
    ensures r.Ok? ==> (|r.value| == 1 <==> cp < 0x80)
  {
    if cp < 0x80 then Ok([cp])
    else if cp < 0x800 then Ok([0xC0 + cp / 64, 0x80 + cp % 64])
    else if cp < 0x10000 then
      Ok([0xE0 + cp / 4096, 0x80 + (cp / 64) % 64, 0x80 + cp % 64])
    else if cp < MAX_CODE_POINT then
      Ok([0xF0 + cp / 262144, 0x80 + (cp / 4096) % 64, 0x80 + (cp / 64) % 64, 0x80 + cp % 64])
    else Err(UnicodeCodePointError)
  }

  // ---------------------------------------------------------------------------
  // The surrogate-pair tracker: utf8_surrogate_checker
  // ---------------------------------------------------------------------------

  /** `surrogate_pair_to_code_point`: joins a high and a low surrogate. */
  function SurrogatePairToCodePoint(high: nat, low: nat): (r: Result<nat>)
    ensures r.Ok? <==> IsHighSurrogate(high) && IsLowSurrogate(low)
    ensures r.Ok? ==> 0x10000 <= r.value <= MAX_CODE_POINT
    ensures r.Ok? ==> r.value - 0x10000 == (high - 0xD800) * 1024 + (low - 0xDC00)
  {
    match CodePointTypeOf(high)
    case Err(e) => Err(e)
    case Ok(ht) =>
      if ht != HighSurrogate then Err(JsonParseError)
      else match CodePointTypeOf(low)
        case Err(e) => Err(e)
        case Ok(lt) =>
          if lt != LowSurrogate then Err(JsonParseError)
          else Ok(0x10000 + (high % 1024) * 1024 + low % 1024)
  }

  /** The two fields of `utf8_surrogate_checker` as a value. */
  datatype TrackerState = TrackerState(lastCodePoint: nat, surrogateLowNeeded: bool)

  /** A default-constructed checker. */
  const FRESH_TRACKER := TrackerState(0, false)

  /** The checker's own invariant: a pending low is only ever awaited after a high. */
  predicate TrackerValid(t: TrackerState) {
    t.surrogateLowNeeded ==> IsHighSurrogate(t.lastCodePoint)
  }

  /** `check_code_point(cp)` as a transition of the checker's state (an `Err`
      leaves the object as it was: every throw precedes the assignments). */
  function CheckStep(t: TrackerState, cp: nat): (r: Result<TrackerState>)
    ensures r.Ok? ==> TrackerValid(r.value)
  {
    var cpType := CodePointTypeOf(cp);
    if cpType.Err? then Err(cpType.error)
    else if cpType.value == LowSurrogate then
      if !t.surrogateLowNeeded then Err(UnicodeCodePointError)
      else
        var joined := SurrogatePairToCodePoint(t.lastCodePoint, cp);
        if joined.Err? then Err(joined.error)
        else Ok(TrackerState(joined.value, false))
    else if cpType.value == HighSurrogate then
      if t.surrogateLowNeeded then Err(UnicodeCodePointError)
      else Ok(TrackerState(cp, true))
    else
      if t.surrogateLowNeeded then Err(UnicodeCodePointError)
      else Ok(TrackerState(cp, false))
  }

  /** The object the string helpers and the parser's string lexer keep while
      walking a string. */
  class Utf8SurrogateChecker {
    var lastCodePoint: nat
    var surrogateLowNeeded: bool

    function State(): TrackerState
      reads this
    {
      TrackerState(lastCodePoint, surrogateLowNeeded)
    }

    constructor ()
      ensures State() == FRESH_TRACKER
    {
      lastCodePoint := 0;
      surrogateLowNeeded := false;
    }

    /** `check_code_point(cp)`; the source's default argument (the "tick" for a
        character that is not a `\u` escape) is `CheckCodePoint(0)`. The result
        is `!surrogateLowNeeded` after the call. */
    method CheckCodePoint(cp: nat) returns (r: Result<bool>)
      modifies this
      ensures CheckStep(old(State()), cp).Ok? ==>
        State() == CheckStep(old(State()), cp).value && r == Ok(!surrogateLowNeeded)
      ensures CheckStep(old(State()), cp).Err? ==>
        State() == old(State()) && r == Err(CheckStep(old(State()), cp).error)
    {
      var cpType := CodePointTypeOf(cp);
      if cpType.Err? {
        return Err(cpType.error);
      }
      if cpType.value == LowSurrogate {
        if !surrogateLowNeeded {
          return Err(UnicodeCodePointError);
        }
        var joined := SurrogatePairToCodePoint(lastCodePoint, cp);
        if joined.Err? {
          return Err(joined.error);
        }
        lastCodePoint := joined.value;
        surrogateLowNeeded := false;
      } else if cpType.value == HighSurrogate {
        if surrogateLowNeeded {
          return Err(UnicodeCodePointError);
        }
        lastCodePoint := cp;
        surrogateLowNeeded := true;
      } else {
        if surrogateLowNeeded {
          return Err(UnicodeCodePointError);
        }
        lastCodePoint := cp;
      }
      r := Ok(!surrogateLowNeeded);
    }
  }
}
