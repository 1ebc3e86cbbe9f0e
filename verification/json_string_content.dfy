/** The content of a JSON string (the bytes between the quotes, section 7 of
    RFC 8259) to and from UTF-8, as src/flumps/string_helpers.cpp does it:
    `json_string_content_to_utf8`, `utf8_to_json_string_content` and
    `to_json_string_content_safe`. */
module JsonStringContent {
  import opened Bytes
  import opened Exception
  import opened Utf8Codec
  import opened HexDigits
  import opened JsonEscape
  import opened Utf8Validity

  /** The two-character escape `utf8_to_json_string_content` writes for a byte,
      as the letter after the backslash: `" \ /` stand for themselves, and the
      five named controls become b f n r t. */
  function ShortEscape(b: byte): Option<byte> {
    if b == QUOTE || b == BACKSLASH || b == SLASH then Some(b)
    else if b == BS then Some(LOWER_B)
    else if b == FF then Some(LOWER_F)
    else if b == LF then Some(LOWER_N)
    else if b == CR then Some(LOWER_R)
    else if b == TAB then Some(LOWER_T)
    else None
  }

  /** The byte `json_string_content_to_utf8` writes for the letter after a
      backslash, for every escape except `\u`. */
  function Unescape(c: byte): Option<byte> {
    if c == BACKSLASH || c == QUOTE || c == SLASH then Some(c)
    else if c == LOWER_B then Some(BS)
    else if c == LOWER_F then Some(FF)
    else if c == LOWER_N then Some(LF)
    else if c == LOWER_R then Some(CR)
    else if c == LOWER_T then Some(TAB)
    else None
  }

  // ---------------------------------------------------------------------------
  // json_string_content_to_utf8
  // ---------------------------------------------------------------------------

  /** What `json_string_content_to_utf8` makes of the rest `s` of its input when
      the surrogate tracker is in state `t`. A byte other than a backslash is
      copied and a simple escape becomes its byte, each followed by the tracker's
      "tick"; a `\uXXXX` escape goes to the tracker and its code point is written
      as UTF-8 once complete; a last tick at the end rejects a pending high
      surrogate. */
  function ContentToUtf8(s: seq<byte>, t: TrackerState): (r: Result<seq<byte>>)
    ensures r.Err? ==> r.error != Utf8DecodeError
    ensures r.Ok? ==> |r.value| <= |s|
    decreases |s|
  {
    if s == [] then
      var f := CheckStep(t, 0);
      if f.Err? then Err(f.error) else Ok([])
    else if s[0] != BACKSLASH then
      var f := CheckStep(t, 0);
      if f.Err? then Err(f.error) else Prepend([s[0]], ContentToUtf8(s[1..], f.value))
    else if |s| == 1 then Err(JsonParseError)
    else if s[1] == LOWER_U then
      var h := HexSeqToCodePoint(s[2..]);
      if h.result.Err? then Err(JsonParseError)
      else
        var f := CheckStep(t, h.result.value);
        if f.Err? then Err(f.error)
        else if f.value.surrogateLowNeeded then ContentToUtf8(s[6..], f.value)
        else
          var u := CodePointToUtf8(f.value.lastCodePoint);
          if u.Err? then Err(u.error) else Prepend(u.value, ContentToUtf8(s[6..], f.value))
    else
      var c := Unescape(s[1]);
      if c.None? then Err(JsonParseError)
      else
        var f := CheckStep(t, 0);
        if f.Err? then Err(f.error) else Prepend([c.value], ContentToUtf8(s[2..], f.value))
  }

  /** A plain byte or a simple escape at `s[start]`, standing for the byte `b`
      and followed by the rest `s[next..]`. */
  lemma ContentAtByte(s: seq<byte>, start: nat, next: nat, b: byte, t: TrackerState)
    requires start < next <= |s|
    requires || (s[start] != BACKSLASH && next == start + 1 && b == s[start])
             || (s[start] == BACKSLASH && next == start + 2 && Unescape(s[start + 1]) == Some(b))
    ensures ContentToUtf8(s[start..], t)
         == if CheckStep(t, 0).Err? then Err(CheckStep(t, 0).error)
            else Prepend([b], ContentToUtf8(s[next..], CheckStep(t, 0).value))
  {
    assert s[start..][1..] == s[start + 1..];
    if s[start] == BACKSLASH {
      assert s[start..][1] == s[start + 1] && s[start..][2..] == s[next..];
    }
  }

  /** A backslash followed by a byte that starts no escape. */
  lemma ContentAtBadEscape(s: seq<byte>, start: nat, t: TrackerState)
    requires start + 1 < |s| && s[start] == BACKSLASH && s[start + 1] != LOWER_U && Unescape(s[start + 1]).None?
    ensures ContentToUtf8(s[start..], t) == Err(JsonParseError)
  {
    assert s[start..][1] == s[start + 1];
  }

  /** The `\u` case of the loop below: the escape at `s[pos - 1..]` has been
      recognised and `pos` is on its first hex digit. */
  method DecodeHexEscape(s: seq<byte>, pos: nat, ret: seq<byte>, tracker: Utf8SurrogateChecker)
    returns (r: Result<seq<byte>>, next: nat)
    requires 2 <= pos <= |s| && s[pos - 2] == BACKSLASH && s[pos - 1] == LOWER_U
    modifies tracker
    ensures r.Ok? ==> pos + 4 == next <= |s|
    ensures Prepend(ret, ContentToUtf8(s[pos - 2..], old(tracker.State())))
         == if r.Ok? then Prepend(r.value, ContentToUtf8(s[next..], tracker.State())) else r
  {
    var cp;
    cp, next := JsonHexSeqToCodePoint(s, pos);
    assert s[pos - 2..][2..] == s[pos..];
    if cp.Err? {
      return Err(JsonParseError), next;
    }
    assert s[pos - 2..][6..] == s[next..];
    var complete := tracker.CheckCodePoint(cp.value);
    if complete.Err? {
      return Err(complete.error), next;
    }
    r := Ok(ret);
    if complete.value {
      var u := CodePointToUtf8(tracker.lastCodePoint);
      if u.Err? {
        return Err(u.error), next;
      }
      r := Ok(ret + u.value);
      PrependTwice(ret, u.value, ContentToUtf8(s[next..], tracker.State()));
    }
  }

  /** `json_string_content_to_utf8(pos, end)`: a loop over the bytes with a
      surrogate tracker and the flag `last_cp_was_hex_seq`, which skips the
      tick after a `\u` escape. */
  method JsonStringContentToUtf8(s: seq<byte>) returns (r: Result<seq<byte>>)
    ensures r == ContentToUtf8(s, FRESH_TRACKER)
  {
    var ret: seq<byte> := [];
    var tracker := new Utf8SurrogateChecker();
    var lastCpWasHexSeq := false;
    var pos := 0;
    assert s[pos..] == s;
    PrependNothing(ContentToUtf8(s, FRESH_TRACKER));
    while pos != |s|
      invariant pos <= |s|
      invariant fresh(tracker)
      invariant ContentToUtf8(s, FRESH_TRACKER) == Prepend(ret, ContentToUtf8(s[pos..], tracker.State()))
      decreases |s| - pos
    {
      ghost var start := pos;
      ghost var before := tracker.State();
      ghost var done := ret;
      lastCpWasHexSeq := false;
      if s[pos] == BACKSLASH {
        pos := pos + 1;
        if pos == |s| {
          assert s[start..] == [BACKSLASH];
          return Err(JsonParseError);
        }
        var c := s[pos];
        if c == LOWER_U {
          pos := pos + 1;
          var res, next := DecodeHexEscape(s, pos, ret, tracker);
          if res.Err? {
            return res;
          }
          ret := res.value;
          pos := next;
          // back up so that the increment at the end of the loop lands after the escape
          pos := pos - 1;
          lastCpWasHexSeq := true;
        } else {
          // the two-byte escapes `\\ \" \/ \b \f \n \r \t`
          var b := Unescape(c);
          if b.None? {
            ContentAtBadEscape(s, start, before);
            return Err(JsonParseError);
          }
          ret := ret + [b.value];
        }
      } else {
        ret := ret + [s[pos]];
      }
      if !lastCpWasHexSeq {
        ContentAtByte(s, start, pos + 1, ret[|ret| - 1], before);
        var ok := tracker.CheckCodePoint(0);
        if ok.Err? {
          return Err(ok.error);
        }
        PrependTwice(done, [ret[|ret| - 1]], ContentToUtf8(s[pos + 1..], tracker.State()));
      }
      pos := pos + 1;
    }
    var ok := tracker.CheckCodePoint(0);
    if ok.Err? {
      return Err(ok.error);
    }
    r := Ok(ret);
    assert ret + [] == ret;
  }

  // ---------------------------------------------------------------------------
  // utf8_to_json_string_content
  // ---------------------------------------------------------------------------

  /** What `utf8_to_json_string_content` makes of `s`: `" \ /` and the five
      named controls become two-character escapes, the other C0 controls and
      DEL go through `code_point_to_json_escape` (whose range check cannot fire
      for a byte), and everything else is copied one whole UTF-8 sequence at a
      time, throwing where the sequence is malformed. */
  function ContentFromUtf8(s: seq<byte>): (r: Result<seq<byte>>)
    ensures r.Err? ==> r.error != JsonParseError
    ensures r.Ok? ==> |r.value| >= |s|
    decreases |s|
  {
    if s == [] then Ok([])
    else if ShortEscape(s[0]).Some? then
      Prepend([BACKSLASH, ShortEscape(s[0]).value], ContentFromUtf8(s[1..]))
    else if s[0] < SPACE || s[0] == DEL then
      Prepend(EscapeBytes(s[0]), ContentFromUtf8(s[1..]))
    else
      var d := Utf8Decode(s);
      if d.result.Err? then Err(d.result.error)
      else Prepend(s[..d.pos], ContentFromUtf8(s[d.pos..]))
  }

  /** The `switch` of `utf8_to_json_string_content` for a byte that must or
      commonly is escaped. */
  method EscapeByte(b: byte) returns (added: seq<byte>)
    requires b == QUOTE || b == BACKSLASH || b == SLASH || b < SPACE || b == DEL
    ensures ShortEscape(b).Some? ==> added == [BACKSLASH, ShortEscape(b).value]
    ensures ShortEscape(b).None? ==> added == EscapeBytes(b)
  {
    if b == BACKSLASH || b == QUOTE || b == SLASH {
      added := [BACKSLASH, b];
    } else if b == BS {
      added := [BACKSLASH, LOWER_B];
    } else if b == FF {
      added := [BACKSLASH, LOWER_F];
    } else if b == LF {
      added := [BACKSLASH, LOWER_N];
    } else if b == CR {
      added := [BACKSLASH, LOWER_R];
    } else if b == TAB {
      added := [BACKSLASH, LOWER_T];
    } else {
      added := WriteJsonEscape(b, []);
      assert [] + EscapeBytes(b) == EscapeBytes(b);
    }
  }

  /** A byte that is escaped: its escape, then the rest. */
  lemma ContentAtEscape(s: seq<byte>, pos: nat, added: seq<byte>)
    requires pos < |s|
    requires s[pos] == QUOTE || s[pos] == BACKSLASH || s[pos] == SLASH || s[pos] < SPACE || s[pos] == DEL
    requires ShortEscape(s[pos]).Some? ==> added == [BACKSLASH, ShortEscape(s[pos]).value]
    requires ShortEscape(s[pos]).None? ==> added == EscapeBytes(s[pos])
    ensures ContentFromUtf8(s[pos..]) == Prepend(added, ContentFromUtf8(s[pos + 1..]))
  {
    assert s[pos..][1..] == s[pos + 1..];
  }

  /** A byte that starts a UTF-8 sequence: the whole sequence copied, then the
      rest; or the decoder's error. */
  lemma ContentAtSequence(s: seq<byte>, pos: nat, next: nat, cp: Result<nat>)
    requires pos < |s| && pos <= next <= |s|
    requires !(s[pos] == QUOTE || s[pos] == BACKSLASH || s[pos] == SLASH || s[pos] < SPACE || s[pos] == DEL)
    requires Utf8Decode(s[pos..]) == Scan(cp, next - pos)
    ensures cp.Err? ==> ContentFromUtf8(s[pos..]) == Err(cp.error)
    ensures cp.Ok? ==> ContentFromUtf8(s[pos..]) == Prepend(s[pos..next], ContentFromUtf8(s[next..]))
  {
    assert s[pos..][..next - pos] == s[pos..next];
    assert s[pos..][next - pos..] == s[next..];
  }

  /** `utf8_to_json_string_content(pos, end)`. */
  method Utf8ToJsonStringContent(s: seq<byte>) returns (r: Result<seq<byte>>)
    ensures r == ContentFromUtf8(s)
  {
    var output: seq<byte> := [];
    var pos := 0;
    assert s[pos..] == s;
    PrependNothing(ContentFromUtf8(s));
    while pos != |s|
      invariant pos <= |s|
      invariant ContentFromUtf8(s) == Prepend(output, ContentFromUtf8(s[pos..]))
      decreases |s| - pos
    {
      var b := s[pos];
      assert s[pos..][1..] == s[pos + 1..];
      if b == QUOTE || b == BACKSLASH || b == SLASH || b < SPACE || b == DEL {
        var added := EscapeByte(b);
        ContentAtEscape(s, pos, added);
        PrependTwice(output, added, ContentFromUtf8(s[pos + 1..]));
        output := output + added;
        pos := pos + 1;
      } else {
        var cpStart := pos;
        var cp, next := ChompUtf8Char(s, pos);
        ContentAtSequence(s, pos, next, cp);
        if cp.Err? {
          return Err(cp.error);
        }
        PrependTwice(output, s[cpStart..next], ContentFromUtf8(s[next..]));
        output := output + s[cpStart..next];
        pos := next;
      }
    }
    r := Ok(output);
    assert output + [] == output;
  }

  // ---------------------------------------------------------------------------
  // to_json_string_content_safe
  // ---------------------------------------------------------------------------

  /** `to_json_string_content_safe(pos, end)`: never throws. Valid UTF-8 is
      encoded as it is; anything else is first read as Latin-1. */
  method ToJsonStringContentSafe(s: seq<byte>) returns (out: seq<byte>)
    ensures ValidUtf8(s) ==> ContentFromUtf8(s) == Ok(out)
    ensures !ValidUtf8(s) ==> ContentFromUtf8(Latin1ToUtf8(s)) == Ok(out)
  {
    var valid := IsUtf8(s);
    var text := s;
    if !valid {
      text := ForceToUtf8(s);
      Latin1ToUtf8Decodes(s);
    }
    ContentFromUtf8OkOnValid(text);
    var r := Utf8ToJsonStringContent(text);
    out := r.value;
  }

  /** Valid UTF-8 is always encoded, without an exception (the header's promise
      for `utf8_to_json_string_content`). */
  lemma {:induction false} ContentFromUtf8OkOnValid(s: seq<byte>)
    requires ValidUtf8(s)
    ensures ContentFromUtf8(s).Ok?
    decreases |s|
  {
    if s != [] {
      var d := Utf8Decode(s);
      if ShortEscape(s[0]).Some? || s[0] < SPACE || s[0] == DEL {
        assert d.pos == 1;
        ContentFromUtf8OkOnValid(s[1..]);
      } else {
        ContentFromUtf8OkOnValid(s[d.pos..]);
      }
    }
  }
}
