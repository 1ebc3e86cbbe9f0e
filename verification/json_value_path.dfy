/** The value paths of src/flumps/json_value_path.cpp: `.abc[]`-style text that
    names the values a callback wants, read into a list of segments. */
module JsonValuePath {
  import opened Bytes
  import opened Exception

  const TILDE: byte := 0x7E  // '~'

  /** `PathSegment`: an empty key stands for "every element of an array", a
      non-empty one for the member of that name in an object. Equality of
      segments is equality of keys. */
  datatype Segment = Segment(key: seq<byte>)
  {
    predicate IsArray()
      ensures IsArray() <==> this == ARRAY_SEGMENT
    {
      key == []
    }

    predicate IsObject()
      ensures IsObject() <==> !IsArray()
    {
      key != []
    }
  }

  const ARRAY_SEGMENT := Segment([])

  /** A parsed path: the segments and the text it was read from (`str()`). */
  datatype Path = Path(segments: seq<Segment>, repr: seq<byte>)

  /** `JsonValuePath()`: no segments, empty text. */
  const DEFAULT_PATH := Path([], [])

  /** The constructor either yields a path or throws `JsonValuePathError`. */
  datatype PathResult = Parsed(path: Path) | JsonValuePathError

  /** `allowed_key_byte`: printable ASCII other than space, without the
      backslash and quote (kept back for quoted keys) and without the two
      structural characters `[` and `.`. Through a signed char, bytes from
      0x80 up are negative and fail the first test. */
  predicate AllowedKeyByte(b: byte)
    ensures AllowedKeyByte(b) ==> SPACE < b < DEL
    ensures b == DOT || b == LBRACKET || b == BACKSLASH || b == QUOTE ==> !AllowedKeyByte(b)
  {
    SPACE < b <= TILDE && b != BACKSLASH && b != QUOTE && b != LBRACKET && b != DOT
  }

  /** `operator==` of paths: the segment lists only, so "" and "." are equal. */
  predicate SamePath(a: Path, b: Path)
    ensures SamePath(a, b) <==> a.segments == b.segments
  {
    a.segments == b.segments
  }

  /** The number of key bytes at the start of `s`. */
  function KeyRun(s: seq<byte>): (n: nat)
    ensures n <= |s|
    ensures forall j :: 0 <= j < n ==> AllowedKeyByte(s[j])
    ensures n < |s| ==> !AllowedKeyByte(s[n])
  {
    if s == [] || !AllowedKeyByte(s[0]) then 0 else 1 + KeyRun(s[1..])
  }

  lemma {:induction false} KeyRunAt(s: seq<byte>, n: nat)
    requires n <= |s|
    requires forall j :: 0 <= j < n ==> AllowedKeyByte(s[j])
    requires n < |s| ==> !AllowedKeyByte(s[n])
    ensures KeyRun(s) == n
  {
    if n > 0 {
      KeyRunAt(s[1..], n - 1);
    }
  }

  /** `p` followed by the segments of `r`, or no segments if `r` failed. */
  function Cons(p: seq<Segment>, r: Option<seq<Segment>>): (q: Option<seq<Segment>>)
    ensures q.Some? <==> r.Some?
    ensures q.Some? ==> q.value == p + r.value
  {
    if r.Some? then Some(p + r.value) else None
  }

  lemma ConsTwice(p: seq<Segment>, q: seq<Segment>, r: Option<seq<Segment>>)
    ensures Cons(p, Cons(q, r)) == Cons(p + q, r)
  {
    if r.Some? {
      assert p + (q + r.value) == (p + q) + r.value;
    }
  }

  lemma ConsNothing(r: Option<seq<Segment>>)
    ensures Cons([], r) == r
  {
    if r.Some? {
      assert [] + r.value == r.value;
    }
  }

  /** The grammar of the text after the root dot, read left to right: `[]` is an
      array segment; a key is a maximal run of key bytes, which after the first
      segment must be introduced by a dot. `first` says whether a segment has
      been read yet. */
  function Segments(s: seq<byte>, first: bool): (r: Option<seq<Segment>>)
    decreases |s|
  {
    if s == [] then Some([])
    else if s[0] == LBRACKET then
      if |s| >= 2 && s[1] == RBRACKET then Cons([ARRAY_SEGMENT], Segments(s[2..], false)) else None
    else if s[0] == DOT && !first then
      var n := KeyRun(s[1..]);
      if n == 0 then None else Cons([Segment(s[1..n + 1])], Segments(s[n + 1..], false))
    else if first && AllowedKeyByte(s[0]) then
      var n := KeyRun(s);
      Cons([Segment(s[..n])], Segments(s[n..], false))
    else None
  }

  /** What a path text means: the empty text is the root, as is a lone dot;
      anything else must start with a dot followed by segments. */
  function ReadSegments(text: seq<byte>): (r: Option<seq<Segment>>)
  {
    if text == [] then Some([])
    else if text[0] != DOT then None
    else Segments(text[1..], true)
  }

  /** The constructor's result, as a function of the text. */
  function ReadPath(text: seq<byte>): (r: PathResult)
    ensures r.Parsed? <==> ReadSegments(text).Some?
    ensures r.Parsed? ==> r.path.repr == text && r.path.segments == ReadSegments(text).value
  {
    var segs := ReadSegments(text);
    if segs.Some? then Parsed(Path(segs.value, text)) else JsonValuePathError
  }

  /** The states of the constructor's loop. */
  datatype ParseState = EmptyRoot | DotRoot | PartialArray | CompleteArray | StartKey | WithinKey

  /** What is left to read in each state, as the grammar sees it: a state
      stands for the bytes it has consumed without deciding on them. */
  ghost function Pending(state: ParseState, key: seq<byte>, rest: seq<byte>): Option<seq<Segment>> {
    match state
    case EmptyRoot => ReadSegments(rest)
    case DotRoot => Segments(rest, true)
    case PartialArray => Segments([LBRACKET] + rest, false)
    case CompleteArray => Segments(rest, false)
    case StartKey => Segments([DOT] + rest, false)
    case WithinKey => Segments(key + rest, true)
  }

  /** A dot and the key byte after it read the same as a first key. */
  lemma DotBeforeKey(c: byte, rest: seq<byte>)
    requires AllowedKeyByte(c)
    ensures Segments([DOT] + ([c] + rest), false) == Segments([c] + rest, true)
  {
    var u := [c] + rest;
    assert u[0] == c;
    var n := KeyRun(u);
    var t := [DOT] + u;
    assert t[0] == DOT && t[1..] == u;
    assert t[1..n + 1] == u[..n] && t[n + 1..] == u[n..];
    KeySegment(t, false);
    KeySegment(u, true);
  }

  /** How `Segments` reads a key: after a dot, or at the start of the text. */
  lemma KeySegment(t: seq<byte>, first: bool)
    requires t != [] && (if first then AllowedKeyByte(t[0]) else t[0] == DOT && KeyRun(t[1..]) > 0)
    ensures first ==> Segments(t, first) == Cons([Segment(t[..KeyRun(t)])], Segments(t[KeyRun(t)..], false))
    ensures !first ==>
      Segments(t, first) == Cons([Segment(t[1..KeyRun(t[1..]) + 1])], Segments(t[KeyRun(t[1..]) + 1..], false))
  {
  }

  /** An array segment reads the same first or later. */
  lemma BracketAfterRoot(rest: seq<byte>)
    ensures Segments([LBRACKET] + rest, true) == Segments([LBRACKET] + rest, false)
  {
  }

  /** At the end of the text, what each state still stands for. */
  lemma PendingAtEnd(state: ParseState, key: seq<byte>)
    requires state != EmptyRoot
    requires state == WithinKey <==> key != []
    requires forall j :: 0 <= j < |key| ==> AllowedKeyByte(key[j])
    ensures state == PartialArray || state == StartKey ==> Pending(state, key, []) == None
    ensures state == WithinKey ==> Pending(state, key, []) == Some([Segment(key)])
    ensures state == DotRoot || state == CompleteArray ==> Pending(state, key, []) == Some([])
  {
    if state == WithinKey {
      assert key + [] == key;
      KeyRunAt(key, |key|);
      assert key[..|key|] == key && key[|key|..] == [];
      var one: seq<Segment> := [Segment(key)];
      assert Segments(key, true) == Cons(one, Segments([], false));
      assert one + [] == one;
    } else if state == PartialArray {
      assert [LBRACKET] + [] == [LBRACKET];
    } else if state == StartKey {
      assert [DOT] + [] == [DOT];
    }
  }

  /** One turn of the constructor's `switch` on a byte `c` followed by `rest`:
      `ok` is false where the source throws. */
  method Step(state: ParseState, segments: seq<Segment>, key: seq<byte>, c: byte, ghost rest: seq<byte>)
    returns (ok: bool, state': ParseState, segments': seq<Segment>, key': seq<byte>)
    requires state == WithinKey <==> key != []
    requires forall j :: 0 <= j < |key| ==> AllowedKeyByte(key[j])
    ensures ok ==> state' != EmptyRoot
    ensures state' == WithinKey <==> key' != []
    ensures forall j :: 0 <= j < |key'| ==> AllowedKeyByte(key'[j])
    ensures ok ==> Cons(segments, Pending(state, key, [c] + rest)) == Cons(segments', Pending(state', key', rest))
    ensures !ok ==> Pending(state, key, [c] + rest) == None
  {
    ok, state', segments', key' := true, state, segments, key;
    match state {
      case EmptyRoot =>
        if c != DOT {
          ok := false;
        } else {
          assert ([c] + rest)[1..] == rest;
          state' := DotRoot;
        }
      case DotRoot =>
        if c == LBRACKET {
          BracketAfterRoot(rest);
          state' := PartialArray;
        } else if AllowedKeyByte(c) {
          state' := WithinKey;
          key' := key + [c];
          assert key' + rest == [c] + rest;
        } else {
          ok := false;
        }
      case PartialArray =>
        if c == RBRACKET {
          assert ([LBRACKET] + ([c] + rest))[2..] == rest;
          ConsTwice(segments, [ARRAY_SEGMENT], Segments(rest, false));
          state' := CompleteArray;
          segments' := segments + [ARRAY_SEGMENT];
        } else {
          ok := false;
        }
      case CompleteArray =>
        if c == DOT {
          state' := StartKey;
        } else if c == LBRACKET {
          state' := PartialArray;
        } else {
          ok := false;
        }
      case StartKey =>
        if AllowedKeyByte(c) {
          state' := WithinKey;
          key' := key + [c];
          assert key' + rest == [c] + rest;
          DotBeforeKey(c, rest);
        } else {
          KeyRunAt([c] + rest, 0);
          ok := false;
        }
      case WithinKey =>
        WithinKeyStep(segments, key, c, rest);
        if c == DOT {
          state' := StartKey;
          segments' := segments + [Segment(key)];
          key' := [];
        } else if c == LBRACKET {
          state' := PartialArray;
          segments' := segments + [Segment(key)];
          key' := [];
        } else if AllowedKeyByte(c) {
          key' := key + [c];
          assert key + ([c] + rest) == key' + rest;
        } else {
          ok := false;
        }
    }
  }

  /** The grammar's view of a byte after a key: a dot or a bracket ends the
      key, and any other byte that is not a key byte is an error. */
  lemma WithinKeyStep(segments: seq<Segment>, key: seq<byte>, c: byte, rest: seq<byte>)
    requires key != [] && forall j :: 0 <= j < |key| ==> AllowedKeyByte(key[j])
    ensures !(c == DOT || c == LBRACKET || AllowedKeyByte(c)) ==> Segments(key + ([c] + rest), true) == None
    ensures c == DOT || c == LBRACKET ==>
      Cons(segments, Segments(key + ([c] + rest), true))
      == Cons(segments + [Segment(key)], Segments([c] + rest, false))
  {
    var s := key + ([c] + rest);
    if !AllowedKeyByte(c) {
      KeyRunAt(s, |key|);
      assert s[..|key|] == key && s[|key|..] == [c] + rest;
      ConsTwice(segments, [Segment(key)], Segments([c] + rest, false));
    }
  }

  /** `JsonValuePath(const std::string& path)`: a byte-by-byte state machine
      that pushes each segment as soon as it is complete; at the end of the
      text a key in progress is pushed, and a dangling `[` or `.` throws. */
  method ParsePath(text: seq<byte>) returns (r: PathResult)
    ensures r == ReadPath(text)
  {
    var state := EmptyRoot;
    var segments: seq<Segment> := [];
    var key: seq<byte> := [];
    var pos := 0;
    assert text[pos..] == text;
    ConsNothing(ReadSegments(text));
    while pos < |text|
      invariant pos <= |text|
      invariant state == EmptyRoot <==> pos == 0
      invariant state == WithinKey <==> key != []
      invariant forall j :: 0 <= j < |key| ==> AllowedKeyByte(key[j])
      invariant ReadSegments(text) == Cons(segments, Pending(state, key, text[pos..]))
    {
      assert text[pos..] == [text[pos]] + text[pos + 1..];
      var ok;
      ok, state, segments, key := Step(state, segments, key, text[pos], text[pos + 1..]);
      if !ok {
        return JsonValuePathError;
      }
      pos := pos + 1;
    }
    assert text[pos..] == [];
    if state != EmptyRoot {
      PendingAtEnd(state, key);
    }
    match state {
      case EmptyRoot =>
      case DotRoot =>
      case PartialArray =>
        return JsonValuePathError;
      case CompleteArray =>
      case StartKey =>
        return JsonValuePathError;
      case WithinKey =>
        segments := segments + [Segment(key)];
    }
    r := Parsed(Path(segments, text));
  }
}
