/** Which texts are value paths, and what they mean: every accepted text is the
    canonical spelling of its segments (or empty), and every list of segments
    has a spelling the constructor reads back. */
module JsonValuePathProperties {
  import opened Bytes
  import opened Exception
  import opened JsonValuePath

  /** Segments a path can hold: an array wildcard, or a key of key bytes. */
  predicate ValidSegments(segs: seq<Segment>) {
    forall i :: 0 <= i < |segs| ==> KeyBytes(segs[i].key)
  }

  predicate KeyBytes(k: seq<byte>) {
    forall j :: 0 <= j < |k| ==> AllowedKeyByte(k[j])
  }

  /** The three ways the grammar reads a segment, one unfolding each. */
  lemma SegmentsOfArray(s: seq<byte>, first: bool)
    requires |s| >= 2 && s[0] == LBRACKET && s[1] == RBRACKET
    ensures Segments(s, first) == Cons([ARRAY_SEGMENT], Segments(s[2..], false))
  {
  }

  lemma SegmentsOfDottedKey(s: seq<byte>, n: nat)
    requires s != [] && s[0] == DOT && n == KeyRun(s[1..]) && n > 0
    ensures Segments(s, false) == Cons([Segment(s[1..n + 1])], Segments(s[n + 1..], false))
  {
  }

  lemma SegmentsOfFirstKey(s: seq<byte>, n: nat)
    requires s != [] && AllowedKeyByte(s[0]) && n == KeyRun(s)
    ensures Segments(s, true) == Cons([Segment(s[..n])], Segments(s[n..], false))
  {
  }

  /** The spelling of one segment: `[]` for an array, the key for an object
      member, with a dot before it unless it is the first segment. */
  function SegmentText(seg: Segment, first: bool): (s: seq<byte>)
  {
    if seg.IsArray() then [LBRACKET, RBRACKET] else (if first then [] else [DOT]) + seg.key
  }

  /** The spelling of segments after the root dot. */
  function Body(segs: seq<Segment>, first: bool): (s: seq<byte>)
  {
    if segs == [] then [] else SegmentText(segs[0], first) + Body(segs[1..], false)
  }

  /** The canonical text of a path: a dot, then the segments. */
  function Render(segs: seq<Segment>): (s: seq<byte>)
    ensures s != [] && s[0] == DOT
  {
    [DOT] + Body(segs, true)
  }

  /** After the first segment, every spelled segment starts with `.` or `[`. */
  lemma BodyHead(segs: seq<Segment>)
    ensures Body(segs, false) == [] || Body(segs, false)[0] == DOT || Body(segs, false)[0] == LBRACKET
  {
  }

  /** One segment's spelling followed by a later segment's is read as that
      segment followed by whatever the later spelling reads as. */
  lemma SegmentThenRest(seg: Segment, first: bool, rest: seq<byte>)
    requires KeyBytes(seg.key)
    requires rest == [] || rest[0] == DOT || rest[0] == LBRACKET
    ensures Segments(SegmentText(seg, first) + rest, first) == Cons([seg], Segments(rest, false))
  {
    if seg.IsArray() {
      assert seg == ARRAY_SEGMENT;
      ArrayThenRest(first, rest);
    } else if first {
      assert SegmentText(seg, first) == seg.key;
      FirstKeyThenRest(seg.key, rest);
    } else {
      assert SegmentText(seg, first) == [DOT] + seg.key;
      DottedKeyThenRest(seg.key, rest);
    }
  }

  lemma ArrayThenRest(first: bool, rest: seq<byte>)
    ensures Segments([LBRACKET, RBRACKET] + rest, first) == Cons([ARRAY_SEGMENT], Segments(rest, false))
  {
    var s := [LBRACKET, RBRACKET] + rest;
    assert s[2..] == rest;
    SegmentsOfArray(s, first);
  }

  lemma FirstKeyThenRest(k: seq<byte>, rest: seq<byte>)
    requires k != [] && KeyBytes(k)
    requires rest == [] || rest[0] == DOT || rest[0] == LBRACKET
    ensures Segments(k + rest, true) == Cons([Segment(k)], Segments(rest, false))
  {
    var s := k + rest;
    assert s[0] == k[0];
    KeyRunAt(s, |k|);
    assert s[..|k|] == k && s[|k|..] == rest;
    SegmentsOfFirstKey(s, |k|);
  }

  lemma DottedKeyThenRest(k: seq<byte>, rest: seq<byte>)
    requires k != [] && KeyBytes(k)
    requires rest == [] || rest[0] == DOT || rest[0] == LBRACKET
    ensures Segments([DOT] + k + rest, false) == Cons([Segment(k)], Segments(rest, false))
  {
    var s := [DOT] + k + rest;
    assert s[1..] == k + rest;
    KeyRunAt(s[1..], |k|);
    assert s[1..|k| + 1] == k && s[|k| + 1..] == rest;
    SegmentsOfDottedKey(s, |k|);
  }

  /** The grammar reads back the segments it is given the spelling of. */
  lemma {:induction false} SegmentsOfBody(segs: seq<Segment>, first: bool)
    requires ValidSegments(segs)
    ensures Segments(Body(segs, first), first) == Some(segs)
    decreases |segs|
  {
    if segs != [] {
      assert ValidSegments(segs[1..]) by {
        forall i | 0 <= i < |segs[1..]|
          ensures KeyBytes(segs[1..][i].key)
        {
          assert segs[1..][i] == segs[i + 1];
        }
      }
      SegmentsOfBody(segs[1..], false);
      BodyHead(segs[1..]);
      SegmentThenRest(segs[0], first, Body(segs[1..], false));
      assert [segs[0]] + segs[1..] == segs;
    }
  }

  /** What the grammar reads first from a non-empty text it accepts, and where
      the rest of the text starts. */
  lemma FirstSegmentRead(s: seq<byte>, first: bool) returns (seg: Segment, n: nat)
    requires s != [] && Segments(s, first).Some?
    ensures 0 < n <= |s| && KeyBytes(seg.key)
    ensures s[..n] == SegmentText(seg, first)
    ensures Segments(s, first) == Cons([seg], Segments(s[n..], false))
  {
    if s[0] == LBRACKET {
      SegmentsOfArray(s, first);
      seg, n := ARRAY_SEGMENT, 2;
    } else if s[0] == DOT && !first {
      var m := KeyRun(s[1..]);
      SegmentsOfDottedKey(s, m);
      seg, n := Segment(s[1..m + 1]), m + 1;
      assert KeyBytes(seg.key) by {
        assert forall j :: 0 <= j < m ==> s[1..m + 1][j] == s[1..][j];
      }
      assert s[..n] == [DOT] + s[1..m + 1];
    } else {
      var m := KeyRun(s);
      SegmentsOfFirstKey(s, m);
      seg, n := Segment(s[..m]), m;
    }
  }

  /** Everything the grammar accepts is the spelling of what it read. */
  lemma {:induction false} BodyOfSegments(s: seq<byte>, first: bool)
    requires Segments(s, first).Some?
    ensures ValidSegments(Segments(s, first).value)
    ensures s == Body(Segments(s, first).value, first)
    decreases |s|
  {
    if s != [] {
      var seg, n := FirstSegmentRead(s, first);
      var tail := Segments(s[n..], false).value;
      BodyOfSegments(s[n..], false);
      var segs := [seg] + tail;
      assert Segments(s, first).value == segs;
      assert segs[1..] == tail;
      assert s == s[..n] + s[n..];
    }
  }

  /** The texts the constructor accepts are exactly the empty text and the
      canonical spellings of valid segment lists, and it reads each spelling
      back as the segments spelled. */
  lemma PathTextCharacterised(text: seq<byte>, segs: seq<Segment>)
    ensures ReadSegments(text) == Some(segs) <==>
      ValidSegments(segs) && (text == Render(segs) || (text == [] && segs == []))
  {
    if ReadSegments(text) == Some(segs) && text != [] {
      ReadIsRendered(text);
    }
    if ValidSegments(segs) && text == Render(segs) {
      RenderedIsRead(segs);
    }
  }

  /** Every non-empty text the constructor accepts is the canonical spelling of
      the segments it reads. */
  lemma ReadIsRendered(text: seq<byte>)
    requires text != [] && ReadSegments(text).Some?
    ensures ValidSegments(ReadSegments(text).value)
    ensures text == Render(ReadSegments(text).value)
  {
    BodyOfSegments(text[1..], true);
    assert text == [DOT] + text[1..];
  }

  /** The constructor reads the canonical spelling of valid segments back as
      those segments. */
  lemma RenderedIsRead(segs: seq<Segment>)
    requires ValidSegments(segs)
    ensures ReadSegments(Render(segs)) == Some(segs)
  {
    SegmentsOfBody(segs, true);
    assert Render(segs)[1..] == Body(segs, true);
  }

  /** Round trip from segments: reading the canonical text gives a path with
      those segments whose `str()` is that text. */
  lemma RenderThenRead(segs: seq<Segment>)
    requires ValidSegments(segs)
    ensures ReadPath(Render(segs)) == Parsed(Path(segs, Render(segs)))
  {
    PathTextCharacterised(Render(segs), segs);
  }

  /** Two accepted texts give equal paths exactly when they are the same text,
      or are "" and "." (in either order). */
  lemma SamePathIffSameText(x: seq<byte>, y: seq<byte>)
    requires ReadPath(x).Parsed? && ReadPath(y).Parsed?
    ensures SamePath(ReadPath(x).path, ReadPath(y).path) <==>
      x == y || (x == [] && y == [DOT]) || (x == [DOT] && y == [])
  {
    var sx, sy := ReadPath(x).path.segments, ReadPath(y).path.segments;
    PathTextCharacterised(x, sx);
    PathTextCharacterised(y, sy);
    RootPaths();
    assert Render([]) == [DOT];
  }

  /** "" and "." both give the root path, equal to the default one, while
      `str()` keeps the text each was read from. */
  lemma RootPaths()
    ensures ReadPath([]) == Parsed(Path([], []))
    ensures ReadPath([DOT]) == Parsed(Path([], [DOT]))
    ensures SamePath(ReadPath([]).path, DEFAULT_PATH) && SamePath(ReadPath([DOT]).path, DEFAULT_PATH)
    ensures ReadPath([]).path != ReadPath([DOT]).path
  {
    assert [DOT][1..] == [];
  }

  /** The keys of the unit tests. */
  const ABC: seq<byte> := [LOWER_A, LOWER_B, 0x63]
  const EFG: seq<byte> := [LOWER_E, LOWER_F, 0x67]

  /** The unit tests that succeed: `.abc`, `.[]`, `.abc.efg`, `.abc[]`, `.[][]`. */
  lemma PathOfKey()
    ensures ReadSegments([DOT] + ABC) == Some([Segment(ABC)])
  {
    var abc := Segment(ABC);
    assert KeyBytes(ABC);
    assert Body([abc], true) == ABC;
    RenderedIsRead([abc]);
  }

  lemma PathOfArray()
    ensures ReadSegments([DOT, LBRACKET, RBRACKET]) == Some([ARRAY_SEGMENT])
  {
    assert Body([ARRAY_SEGMENT], true) == [LBRACKET, RBRACKET];
    RenderedIsRead([ARRAY_SEGMENT]);
  }

  lemma PathOfTwoKeys()
    ensures ReadSegments([DOT] + ABC + [DOT] + EFG) == Some([Segment(ABC), Segment(EFG)])
  {
    var abc, efg := Segment(ABC), Segment(EFG);
    assert KeyBytes(ABC) && KeyBytes(EFG);
    assert [abc, efg][1..] == [efg];
    assert Body([efg], false) == [DOT] + EFG;
    assert Body([abc, efg], true) == ABC + ([DOT] + EFG);
    assert Render([abc, efg]) == [DOT] + ABC + [DOT] + EFG;
    RenderedIsRead([abc, efg]);
  }

  lemma PathOfKeyThenArray()
    ensures ReadSegments([DOT] + ABC + [LBRACKET, RBRACKET]) == Some([Segment(ABC), ARRAY_SEGMENT])
  {
    var abc := Segment(ABC);
    assert KeyBytes(ABC);
    assert [abc, ARRAY_SEGMENT][1..] == [ARRAY_SEGMENT];
    assert Body([ARRAY_SEGMENT], false) == [LBRACKET, RBRACKET];
    assert Body([abc, ARRAY_SEGMENT], true) == ABC + [LBRACKET, RBRACKET];
    assert Render([abc, ARRAY_SEGMENT]) == [DOT] + ABC + [LBRACKET, RBRACKET];
    RenderedIsRead([abc, ARRAY_SEGMENT]);
  }

  lemma PathOfTwoArrays()
    ensures ReadSegments([DOT, LBRACKET, RBRACKET, LBRACKET, RBRACKET]) == Some([ARRAY_SEGMENT, ARRAY_SEGMENT])
  {
    assert [ARRAY_SEGMENT, ARRAY_SEGMENT][1..] == [ARRAY_SEGMENT];
    assert Body([ARRAY_SEGMENT], false) == [LBRACKET, RBRACKET];
    assert Body([ARRAY_SEGMENT, ARRAY_SEGMENT], true) == [LBRACKET, RBRACKET, LBRACKET, RBRACKET];
    RenderedIsRead([ARRAY_SEGMENT, ARRAY_SEGMENT]);
  }

  /** The six texts the unit tests expect to throw: a first byte other than a
      dot (`a`), a non-key byte where a key starts (`. `) or goes on (`.a `,
      `.a. `), a `[` not closed at once (`.[a`) and a key glued to `]`
      (`.[]a`); and, beyond the tests, two texts with a dot that no key
      follows (`..`, `.abc.`), which are rejected as well. */
  lemma PathErrorExamples()
    ensures ReadPath([LOWER_A]) == JsonValuePathError
    ensures ReadPath([DOT, SPACE]) == JsonValuePathError
    ensures ReadPath([DOT, LOWER_A, SPACE]) == JsonValuePathError
    ensures ReadPath([DOT, LOWER_A, DOT, SPACE]) == JsonValuePathError
    ensures ReadPath([DOT, LBRACKET, LOWER_A]) == JsonValuePathError
    ensures ReadPath([DOT, LBRACKET, RBRACKET, LOWER_A]) == JsonValuePathError
    ensures ReadPath([DOT, DOT]) == JsonValuePathError
    ensures ReadPath([DOT] + ABC + [DOT]) == JsonValuePathError
  {
    assert [DOT, SPACE][1..] == [SPACE];
    assert [DOT, LBRACKET, LOWER_A][1..] == [LBRACKET, LOWER_A];
    assert [DOT, DOT][1..] == [DOT];
    assert Segments([SPACE], false) == None;
    assert Segments([LOWER_A], false) == None;
    assert Segments([DOT, SPACE], false) == None by {
      KeyRunAt([SPACE], 0);
    }
    assert Segments([DOT], false) == None by {
      assert [DOT][1..] == [];
    }
    assert ReadSegments([DOT, LOWER_A, SPACE]) == None by {
      var s := [LOWER_A, SPACE];
      assert [DOT, LOWER_A, SPACE][1..] == s;
      KeyRunAt(s, 1);
      SegmentsOfFirstKey(s, 1);
      assert s[1..] == [SPACE];
    }
    assert ReadSegments([DOT, LOWER_A, DOT, SPACE]) == None by {
      var s := [LOWER_A, DOT, SPACE];
      assert [DOT, LOWER_A, DOT, SPACE][1..] == s;
      KeyRunAt(s, 1);
      SegmentsOfFirstKey(s, 1);
      assert s[1..] == [DOT, SPACE];
    }
    assert ReadSegments([DOT, LBRACKET, RBRACKET, LOWER_A]) == None by {
      var s := [LBRACKET, RBRACKET, LOWER_A];
      assert [DOT, LBRACKET, RBRACKET, LOWER_A][1..] == s;
      SegmentsOfArray(s, true);
      assert s[2..] == [LOWER_A];
    }
    assert ReadSegments([DOT] + ABC + [DOT]) == None by {
      var s := ABC + [DOT];
      assert ([DOT] + ABC + [DOT])[1..] == s;
      KeyRunAt(s, 3);
      SegmentsOfFirstKey(s, 3);
      assert s[3..] == [DOT];
    }
  }
}
