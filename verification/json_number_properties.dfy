/** The number lexer of `parse_number` against the number grammar of section 6
    of RFC 8259, written here independently of the lexer:

      number = [ minus ] int [ frac ] [ exp ]
      int    = zero / ( digit1-9 *DIGIT )
      frac   = decimal-point 1*DIGIT
      exp    = e [ minus / plus ] 1*DIGIT

    Every number the lexer accepts is such a token, and every such token that
    the next byte cannot extend is accepted. */
module JsonNumberProperties {
  import opened Bytes
  import opened JsonGrammar

  predicate AllDigits(t: seq<byte>) {
    forall i :: 0 <= i < |t| ==> IsDec(t[i])
  }

  /** `int`: a lone zero, or a non-zero digit followed by digits. */
  predicate IntPart(t: seq<byte>) {
    t == [DIGIT_0] || (|t| >= 1 && DIGIT_0 < t[0] <= DIGIT_9 && AllDigits(t))
  }

  /** `[ frac ]` */
  predicate FracPart(t: seq<byte>) {
    t == [] || (|t| >= 2 && t[0] == DOT && AllDigits(t[1..]))
  }

  /** `[ exp ]` */
  predicate ExpPart(t: seq<byte>) {
    t == []
    || (|t| >= 2 && (t[0] == LOWER_E || t[0] == UPPER_E)
        && if t[1] == MINUS || t[1] == PLUS then |t| >= 3 && AllDigits(t[2..]) else AllDigits(t[1..]))
  }

  /** `t` splits at `i`, `j` and `k` into sign, int, frac and exp. */
  predicate NumberShape(t: seq<byte>, i: nat, j: nat, k: nat) {
    i <= j <= k <= |t|
    && (i == 0 || (i == 1 && t[0] == MINUS))
    && IntPart(t[i..j]) && FracPart(t[j..k]) && ExpPart(t[k..])
  }

  /** A number token of section 6 of RFC 8259. */
  ghost predicate NumberToken(t: seq<byte>) {
    exists i: nat, j: nat, k: nat :: NumberShape(t, i, j, k)
  }

  /** Bytes that could extend a number token. */
  predicate ContinuesNumber(b: byte) {
    IsDec(b) || b == DOT || b == LOWER_E || b == UPPER_E
  }

  // ---------------------------------------------------------------------------
  // Digit runs
  // ---------------------------------------------------------------------------

  /** Every byte `DigitsEnd` passes over is a digit. */
  lemma {:induction false} DigitsEndDigits(s: seq<byte>, p: nat)
    requires p <= |s|
    ensures AllDigits(s[p..DigitsEnd(s, p)])
    decreases |s| - p
  {
    if p < |s| && IsDec(s[p]) {
      DigitsEndDigits(s, p + 1);
      assert s[p..DigitsEnd(s, p)] == [s[p]] + s[p + 1..DigitsEnd(s, p)];
    }
  }

  /** A run of digits ended by a non-digit (or the end) is where `DigitsEnd`
      stops. */
  lemma {:induction false} DigitsEndAt(s: seq<byte>, p: nat, q: nat)
    requires p <= q <= |s| && AllDigits(s[p..q])
    requires q < |s| ==> !IsDec(s[q])
    ensures DigitsEnd(s, p) == q
    decreases q - p
  {
    if p < q {
      assert s[p] == s[p..q][0];
      assert s[p + 1..q] == s[p..q][1..];
      DigitsEndAt(s, p + 1, q);
    }
  }

  /** A piece of a piece of `s` is a piece of `s`. */
  lemma SliceOfSlice(s: seq<byte>, p: nat, e: nat, a: nat, b: nat)
    requires p <= a <= b <= e <= |s|
    ensures s[p..e][a - p..b - p] == s[a..b]
    ensures s[p..e][a - p..] == s[a..e]
  {
    var u := s[p..e];
    assert |u[a - p..b - p]| == b - a;
    assert forall x :: a <= x < b ==> u[a - p..b - p][x - a] == s[x];
    assert u[a - p..] == u[a - p..e - p];
  }

  // ---------------------------------------------------------------------------
  // Soundness: what the lexer accepts is a number token
  // ---------------------------------------------------------------------------

  /** Where the integer part ends, as `parse_number` reads it from `q`. */
  function IntEnd(s: seq<byte>, q: nat): (e: nat)
    requires q < |s|
    ensures q < e <= |s|
  {
    if s[q] == DIGIT_0 then q + 1 else DigitsEnd(s, q + 1)
  }

  lemma IntEndShape(s: seq<byte>, q: nat)
    requires q < |s| && IsDec(s[q])
    ensures IntPart(s[q..IntEnd(s, q)])
  {
    if s[q] != DIGIT_0 {
      DigitsEndDigits(s, q + 1);
      var t := s[q..IntEnd(s, q)];
      assert t == [s[q]] + s[q + 1..IntEnd(s, q)];
    } else {
      assert s[q..q + 1] == [DIGIT_0];
    }
  }

  /** An exponent the lexer accepts from `f` to `e` has the shape of `exp`. */
  lemma ExponentSound(s: seq<byte>, f: nat)
    requires f <= |s| && ExponentLex(s, f).Lexed?
    ensures ExpPart(s[f..ExponentLex(s, f).end])
  {
    var e := ExponentLex(s, f).end;
    if f < |s| && (s[f] == LOWER_E || s[f] == UPPER_E) {
      var j := f + 1;
      var k := if s[j] == MINUS || s[j] == PLUS then j + 1 else j;
      DigitsEndDigits(s, k + 1);
      var t := s[f..e];
      assert t[k - f..] == [s[k]] + s[k + 1..e];
      assert AllDigits(t[k - f..]);
      if k == j + 1 {
        assert t[2..] == t[k - f..];
      } else {
        assert t[1..] == t[k - f..];
      }
    } else {
      assert s[f..e] == [];
    }
  }

  /** A fraction the lexer accepts from `i` is a `frac` followed by an `exp`. */
  lemma FractionSound(s: seq<byte>, i: nat) returns (f: nat)
    requires i <= |s| && FractionLex(s, i).Lexed?
    ensures i <= f <= FractionLex(s, i).end
    ensures FracPart(s[i..f]) && ExpPart(s[f..FractionLex(s, i).end])
  {
    if i == |s| || s[i] != DOT {
      f := i;
      if i < |s| { ExponentSound(s, i); }
      assert s[i..f] == [];
    } else {
      f := DigitsEnd(s, i + 2);
      ExponentSound(s, f);
      DigitsEndDigits(s, i + 2);
      var t := s[i..f];
      assert t[1..] == [s[i + 1]] + s[i + 2..f];
    }
  }

  /** Every number `parse_number` accepts is a number token. */
  lemma NumberLexSound(s: seq<byte>, p: nat)
    requires p < |s| && (s[p] == MINUS || IsDec(s[p]))
    ensures NumberLex(s, p).Lexed? ==> NumberToken(s[p..NumberLex(s, p).end])
  {
    if NumberLex(s, p).Lexed? {
      var e := NumberLex(s, p).end;
      var q := if s[p] == MINUS then p + 1 else p;
      var ie := IntEnd(s, q);
      assert NumberLex(s, p) == FractionLex(s, ie);
      IntEndShape(s, q);
      var f := FractionSound(s, ie);
      var t := s[p..e];
      SliceOfSlice(s, p, e, q, ie);
      SliceOfSlice(s, p, e, ie, f);
      SliceOfSlice(s, p, e, f, e);
      assert q - p == 1 ==> t[0] == MINUS;
      assert NumberShape(t, q - p, ie - p, f - p);
    }
  }

  // ---------------------------------------------------------------------------
  // Completeness: every number token is lexed, up to where it stops
  // ---------------------------------------------------------------------------

  /** An `exp` from `f` to `e`, not followed by a digit, is lexed to `e`. */
  lemma ExponentComplete(s: seq<byte>, f: nat, e: nat)
    requires f <= e <= |s| && ExpPart(s[f..e])
    requires e < |s| ==> !ContinuesNumber(s[e])
    ensures ExponentLex(s, f) == Lexed(e)
  {
    var t := s[f..e];
    if t == [] {
      assert f == e;
    } else {
      assert s[f] == t[0];
      var j := f + 1;
      assert s[j] == t[1];
      var k := if s[j] == MINUS || s[j] == PLUS then j + 1 else j;
      assert s[k..e] == t[k - f..];
      assert s[k] == t[k - f];
      assert s[k + 1..e] == t[k - f + 1..];
      DigitsEndAt(s, k + 1, e);
    }
  }

  /** A `frac` from `i` to `f` and an `exp` from `f` to `e`, not followed by a
      byte that continues a number, are lexed to `e`. */
  lemma FractionComplete(s: seq<byte>, i: nat, f: nat, e: nat)
    requires i <= f <= e <= |s| && FracPart(s[i..f]) && ExpPart(s[f..e])
    requires e < |s| ==> !ContinuesNumber(s[e])
    ensures FractionLex(s, i) == Lexed(e)
  {
    ExponentComplete(s, f, e);
    if i < f {
      var t := s[i..f];
      assert s[i] == t[0] && s[i + 1] == t[1];
      assert s[i + 2..f] == t[2..];
      assert f < |s| ==> !IsDec(s[f]) by {
        if f < e { assert s[f] == s[f..e][0]; }
      }
      DigitsEndAt(s, i + 2, f);
    } else if i < |s| {
      if i < e {
        assert s[i] == s[f..e][0];
      }
    }
  }

  /** An `int` from `q` to `ie`, followed by a `frac` and an `exp` up to an end
      `e` that the next byte cannot extend, ends where `parse_number` ends it. */
  lemma IntComplete(s: seq<byte>, q: nat, ie: nat, f: nat, e: nat)
    requires q < ie <= f <= e <= |s| && IntPart(s[q..ie])
    requires FracPart(s[ie..f]) && ExpPart(s[f..e])
    requires e < |s| ==> !ContinuesNumber(s[e])
    ensures IntEnd(s, q) == ie
  {
    // the byte after the integer part does not continue it
    assert ie < |s| ==> !IsDec(s[ie]) by {
      if ie < f {
        assert s[ie] == s[ie..f][0];
      } else if f < e {
        assert s[ie] == s[f..e][0];
      }
    }
    assert s[q] == s[q..ie][0];
    if s[q] != DIGIT_0 {
      assert s[q + 1..ie] == s[q..ie][1..];
      DigitsEndAt(s, q + 1, ie);
    } else {
      assert s[q..ie] == [DIGIT_0];
    }
  }

  /** Every number token is lexed by `parse_number` when the byte after it
      cannot continue a number. */
  lemma NumberLexComplete(s: seq<byte>, p: nat, e: nat)
    requires p <= e <= |s| && NumberToken(s[p..e])
    requires e < |s| ==> !ContinuesNumber(s[e])
    ensures p < |s| && (s[p] == MINUS || IsDec(s[p]))
    ensures NumberLex(s, p) == Lexed(e)
  {
    var i: nat, j: nat, k: nat :| NumberShape(s[p..e], i, j, k);
    IntEndOfShape(s, p, e, i, j, k);
    FractionOfShape(s, p, e, i, j, k);
    NumberLexFromInt(s, p, p + i);
  }

  /** The sign and integer part of a number token at `s[p..e]`: the integer
      part starts with a digit and ends where the fraction begins. */
  lemma IntEndOfShape(s: seq<byte>, p: nat, e: nat, i: nat, j: nat, k: nat)
    requires p <= e <= |s| && NumberShape(s[p..e], i, j, k)
    requires e < |s| ==> !ContinuesNumber(s[e])
    ensures p + i < p + j <= e && IntEnd(s, p + i) == p + j
    ensures IsDec(s[p + i]) && (s[p] == MINUS || IsDec(s[p]))
    ensures p + i == if s[p] == MINUS then p + 1 else p
  {
    ShapeInSource(s, p, e, i, j, k);
    IntComplete(s, p + i, p + j, p + k, e);
  }

  /** The fraction and exponent of a number token at `s[p..e]` are lexed up
      to `e`. */
  lemma FractionOfShape(s: seq<byte>, p: nat, e: nat, i: nat, j: nat, k: nat)
    requires p <= e <= |s| && NumberShape(s[p..e], i, j, k)
    requires e < |s| ==> !ContinuesNumber(s[e])
    ensures p + j <= e && FractionLex(s, p + j) == Lexed(e)
  {
    ShapeInSource(s, p, e, i, j, k);
    FractionComplete(s, p + j, p + k, e);
  }

  /** The three parts of a number token at `s[p..e]`, as slices of `s`. */
  lemma ShapeInSource(s: seq<byte>, p: nat, e: nat, i: nat, j: nat, k: nat)
    requires p <= e <= |s| && NumberShape(s[p..e], i, j, k)
    ensures p + i < p + j <= p + k <= e
    ensures IntPart(s[p + i..p + j]) && FracPart(s[p + j..p + k]) && ExpPart(s[p + k..e])
    ensures IsDec(s[p + i]) && (s[p] == MINUS || IsDec(s[p]))
    ensures p + i == if s[p] == MINUS then p + 1 else p
  {
    var t := s[p..e];
    var q, ie, f := p + i, p + j, p + k;
    SliceOfSlice(s, p, e, q, ie);
    SliceOfSlice(s, p, e, ie, f);
    SliceOfSlice(s, p, e, f, e);
    assert t[i..j] == s[q..ie] && t[j..k] == s[ie..f] && t[k..] == s[f..e];
    assert s[q] == s[q..ie][0];
    assert s[p] == t[0];
  }

  /** `parse_number` after the sign: the fraction is lexed from where the
      integer part ends. */
  lemma NumberLexFromInt(s: seq<byte>, p: nat, q: nat)
    requires p <= q < |s| && IsDec(s[q]) && (s[p] == MINUS || IsDec(s[p]))
    requires q == if s[p] == MINUS then p + 1 else p
    ensures NumberLex(s, p) == FractionLex(s, IntEnd(s, q))
  {
  }

  /** Both directions, for an end `e` that the next byte cannot extend: the
      lexer reads a number from `p` to `e` exactly when those bytes are a
      number token. */
  lemma NumberLexCharacterised(s: seq<byte>, p: nat, e: nat)
    requires p < |s| && (s[p] == MINUS || IsDec(s[p])) && p <= e <= |s|
    requires e < |s| ==> !ContinuesNumber(s[e])
    ensures NumberLex(s, p) == Lexed(e) <==> NumberToken(s[p..e])
  {
    if NumberLex(s, p) == Lexed(e) {
      NumberLexSound(s, p);
    }
    if NumberToken(s[p..e]) {
      NumberLexComplete(s, p, e);
    }
  }
}
