/** Whole-string UTF-8 checks and the Latin-1 fallback of
    src/flumps/string_helpers.cpp: `is_utf8` and `force_to_utf8`. */
module Utf8Validity {
  import opened Bytes
  import opened Exception
  import opened Utf8Codec
  import opened Utf8CodecProperties

  /** What `is_utf8` decides: chomping one sequence after another reaches the
      end without either exception. */
  predicate ValidUtf8(s: seq<byte>)
    decreases |s|
  {
    s == [] || (Utf8Decode(s).result.Ok? && ValidUtf8(s[Utf8Decode(s).pos..]))
  }

  /** The code points of valid UTF-8 text, in order. */
  function CodePoints(s: seq<byte>): (cps: seq<nat>)
    requires ValidUtf8(s)
    ensures |cps| <= |s|
    ensures forall i :: 0 <= i < |cps| ==> cps[i] <= MAX_CODE_POINT && !IsSurrogate(cps[i])
    decreases |s|
  {
    if s == [] then [] else [Utf8Decode(s).result.value] + CodePoints(s[Utf8Decode(s).pos..])
  }

  /** `is_utf8(pos, end)`: a loop of `chomp_utf8_char` calls; either exception
      answers false. */
  method IsUtf8(s: seq<byte>) returns (b: bool)
    ensures b == ValidUtf8(s)
  {
    var pos := 0;
    while pos != |s|
      invariant pos <= |s|
      invariant ValidUtf8(s) == ValidUtf8(s[pos..])
      decreases |s| - pos
    {
      var r, next := ChompUtf8Char(s, pos);
      if r.Err? {
        return false;
      }
      assert s[pos..][next - pos..] == s[next..];
      pos := next;
    }
    return true;
  }

  /** Valid text followed by valid text is valid, and its code points are
      those of the two parts in order. */
  lemma {:induction false} ValidUtf8Append(a: seq<byte>, b: seq<byte>)
    requires ValidUtf8(a) && ValidUtf8(b)
    ensures ValidUtf8(a + b)
    ensures CodePoints(a + b) == CodePoints(a) + CodePoints(b)
    decreases |a|
  {
    if a == [] {
      assert a + b == b;
    } else {
      var d := Utf8Decode(a);
      var n := d.pos;
      var cp := d.result.value;
      DecodeOfPrefix(a, b);
      ValidUtf8Append(a[n..], b);
      assert (a + b)[n..] == a[n..] + b;
      ValidUtf8Step(a + b, cp, n);
      ValidUtf8Step(a, cp, n);
      ConsAppend(cp, CodePoints(a[n..]), CodePoints(b));
    }
  }

  lemma ConsAppend(cp: nat, x: seq<nat>, y: seq<nat>)
    ensures [cp] + (x + y) == ([cp] + x) + y
  {
  }

  /** Decoding valid text followed by anything sees only the first sequence. */
  lemma DecodeOfPrefix(a: seq<byte>, b: seq<byte>)
    requires a != [] && ValidUtf8(a)
    ensures Utf8Decode(a + b) == Utf8Decode(a)
    ensures (a + b)[Utf8Decode(a).pos..] == a[Utf8Decode(a).pos..] + b
  {
    Utf8DecodeIsLocal(a, b);
  }

  /** One step of `ValidUtf8` and `CodePoints`. */
  lemma ValidUtf8Step(s: seq<byte>, cp: nat, n: nat)
    requires s != [] && Utf8Decode(s) == Scan(Ok(cp), n) && ValidUtf8(s[n..])
    ensures ValidUtf8(s) && CodePoints(s) == [cp] + CodePoints(s[n..])
  {
  }

  /** The encoding of a code point the encoder accepts (and which is not a
      surrogate) is valid text made of exactly that code point. */
  lemma EncodingIsValid(cp: nat)
    requires cp < MAX_CODE_POINT && !IsSurrogate(cp)
    ensures CodePointToUtf8(cp).Ok?
    ensures ValidUtf8(CodePointToUtf8(cp).value)
    ensures CodePoints(CodePointToUtf8(cp).value) == [cp]
  {
    var e := CodePointToUtf8(cp).value;
    Utf8RoundTrip(cp, []);
    assert e + [] == e;
    assert e[|e|..] == [];
  }

  // ---------------------------------------------------------------------------
  // force_to_utf8
  // ---------------------------------------------------------------------------

  /** The bytes one Latin-1 byte becomes: itself below 0x80, otherwise
      `0xC0 | (b >> 6)` and `0x80 | (b & 0x3F)`. */
  function Latin1Char(b: byte): (u: seq<byte>) {
    if b < 0x80 then [b] else [0xC0 + b / 64, 0x80 + b % 64]
  }

  /** The number of bytes at or above 0x80. */
  function HighCount(s: seq<byte>): (n: nat)
    ensures n <= |s|
  {
    if s == [] then 0 else HighCount(s[..|s| - 1]) + (if s[|s| - 1] < 0x80 then 0 else 1)
  }

  /** The text `force_to_utf8` builds, byte after byte. */
  function Latin1ToUtf8(s: seq<byte>): (u: seq<byte>)
    ensures |u| == |s| + HighCount(s)
  {
    if s == [] then [] else Latin1ToUtf8(s[..|s| - 1]) + Latin1Char(s[|s| - 1])
  }

  /** `force_to_utf8(pos, end)`: reads the input as ISO 8859-1 and writes its
      UTF-8 form. */
  method ForceToUtf8(s: seq<byte>) returns (u: seq<byte>)
    ensures u == Latin1ToUtf8(s)
  {
    u := [];
    var pos := 0;
    while pos != |s|
      invariant pos <= |s|
      invariant u == Latin1ToUtf8(s[..pos])
    {
      assert s[..pos + 1][..pos] == s[..pos];
      if s[pos] < 0x80 {
        u := u + [s[pos]];
      } else {
        u := u + [0xC0 + s[pos] / 64, 0x80 + s[pos] % 64];
      }
      pos := pos + 1;
    }
    assert s[..pos] == s;
  }

  /** Each Latin-1 byte is written as the UTF-8 encoding of the code point with
      the same number (ISO 8859-1 is the first 256 code points). */
  lemma Latin1CharIsEncoding(b: byte)
    ensures CodePointToUtf8(b) == Ok(Latin1Char(b))
  {
  }

  /** The transcoding distributes over concatenation. */
  lemma {:induction false} Latin1ToUtf8Append(a: seq<byte>, b: seq<byte>)
    ensures Latin1ToUtf8(a + b) == Latin1ToUtf8(a) + Latin1ToUtf8(b)
    decreases |b|
  {
    if b == [] {
      assert a + b == a;
    } else {
      var b' := b[..|b| - 1];
      assert (a + b)[..|a + b| - 1] == a + b';
      Latin1ToUtf8Append(a, b');
    }
  }

  /** `force_to_utf8` always yields valid UTF-8, and decoding it gives back the
      input bytes as code points: the map is reversible. */
  lemma {:induction false} Latin1ToUtf8Decodes(s: seq<byte>)
    ensures ValidUtf8(Latin1ToUtf8(s))
    ensures CodePoints(Latin1ToUtf8(s)) == s
    decreases |s|
  {
    if s != [] {
      var init := s[..|s| - 1];
      var b := s[|s| - 1];
      Latin1ToUtf8Decodes(init);
      Latin1CharIsEncoding(b);
      EncodingIsValid(b);
      ValidUtf8Append(Latin1ToUtf8(init), Latin1Char(b));
      assert s == init + [b];
    }
  }

  /** Two inputs with the same transcoding are the same input. */
  lemma Latin1ToUtf8Injective(s: seq<byte>, t: seq<byte>)
    requires Latin1ToUtf8(s) == Latin1ToUtf8(t)
    ensures s == t
  {
    Latin1ToUtf8Decodes(s);
    Latin1ToUtf8Decodes(t);
  }

  /** Pure ASCII input is reproduced unchanged. */
  lemma {:induction false} Latin1ToUtf8KeepsAscii(s: seq<byte>)
    requires forall i :: 0 <= i < |s| ==> s[i] < 0x80
    ensures Latin1ToUtf8(s) == s
    decreases |s|
  {
    if s != [] {
      Latin1ToUtf8KeepsAscii(s[..|s| - 1]);
      assert s == s[..|s| - 1] + [s[|s| - 1]];
    }
  }
}
