/** What the depth limit does: a text parses under a limit exactly when it
    parses without one and its deepest member or element fits under the limit,
    and then the limit changes nothing about what is reported. `inc_depth`
    counts the frames on the parser's stack; the frames a text needs are
    computed here along the run without a limit. */
module JsonDepthProperties {
  import opened Bytes
  import opened JsonGrammar

  function Max(a: nat, b: nat): (m: nat)
    ensures m >= a && m >= b && (m == a || m == b)
  {
    if a >= b then a else b
  }

  // ---------------------------------------------------------------------------
  // The frames a text needs
  // ---------------------------------------------------------------------------

  /** The largest number of frames on the stack while the element at `p` is
      read, without a limit, starting from `d` frames. */
  function ElementFrames(s: seq<byte>, p: nat, d: nat): (m: nat)
    requires p <= |s|
    ensures m >= d
    decreases |s| - p, 5
  {
    ValueFrames(s, SkipWs(s, p), d)
  }

  function ValueFrames(s: seq<byte>, p: nat, d: nat): (m: nat)
    requires p <= |s|
    ensures m >= d
    decreases |s| - p, 4
  {
    if p == |s| then d
    else if s[p] == LBRACE then ObjectFrames(s, p, d)
    else if s[p] == LBRACKET then ArrayFrames(s, p, d)
    else d
  }

  /** An empty object pushes no frame. */
  function ObjectFrames(s: seq<byte>, p: nat, d: nat): (m: nat)
    requires p < |s|
    ensures m >= d
    decreases |s| - p, 3
  {
    var q := SkipWs(s, p + 1);
    if q < |s| && s[q] == RBRACE then d else MembersFrames(s, q, d, p)
  }

  function MembersFrames(s: seq<byte>, q: nat, d: nat, start: nat): (m: nat)
    requires start < q <= |s|
    ensures m >= d
    decreases |s| - q, 2
  {
    var k := MemberKey(s, q);
    if !k.ok then d else MemberValueFrames(s, k, d, start)
  }

  /** Each member's element is read on a frame of its own, `d + 1`. */
  function MemberValueFrames(s: seq<byte>, k: Run, d: nat, start: nat): (m: nat)
    requires k.ok && start < k.pos <= |s|
    ensures m >= d + 1
    decreases |s| - k.pos, 6
  {
    var f := ElementFrames(s, k.pos, d + 1);
    var e := Element(s, 0, k.pos, d + 1);
    if !e.ok then f else Max(f, AfterMemberFrames(s, e.pos, d, start))
  }

  function AfterMemberFrames(s: seq<byte>, r: nat, d: nat, start: nat): (m: nat)
    requires start < r <= |s|
    ensures m >= d
    decreases |s| - r, 1
  {
    if r < |s| && s[r] == COMMA then MembersFrames(s, r + 1, d, start) else d
  }

  /** An empty array pushes no frame. */
  function ArrayFrames(s: seq<byte>, p: nat, d: nat): (m: nat)
    requires p < |s|
    ensures m >= d
    decreases |s| - p, 3
  {
    var q := SkipWs(s, p + 1);
    if q < |s| && s[q] == RBRACKET then d else ElementsFrames(s, q, d, p)
  }

  /** Each array element is read on a frame of its own, `d + 1`. */
  function ElementsFrames(s: seq<byte>, q: nat, d: nat, start: nat): (m: nat)
    requires start < q <= |s|
    ensures m >= d + 1
    decreases |s| - q, 6
  {
    var f := ElementFrames(s, q, d + 1);
    var e := Element(s, 0, q, d + 1);
    if !e.ok then f else Max(f, AfterElementFrames(s, e.pos, d, start))
  }

  function AfterElementFrames(s: seq<byte>, r: nat, d: nat, start: nat): (m: nat)
    requires start < r <= |s|
    ensures m >= d
    decreases |s| - r, 1
  {
    if r < |s| && s[r] == COMMA then ElementsFrames(s, r + 1, d, start) else d
  }

  /** The frames the whole text needs: its root element is read on the first. */
  function TextFrames(s: seq<byte>): (m: nat)
    ensures m >= 1
  {
    ElementFrames(s, 0, 1)
  }

  // ---------------------------------------------------------------------------
  // The limit against the frames needed
  // ---------------------------------------------------------------------------

  /** Under a limit that holds the frames needed, a rule runs as it does
      without a limit; and a rule that succeeds under a limit ran as without
      one, needing no more frames than the limit. Every rule is entered with
      at most `L` frames, as the checks before each push ensure. */
  lemma {:induction false} ElementWithinLimit(s: seq<byte>, L: nat, p: nat, d: nat)
    requires p <= |s| && (L == 0 || d <= L)
    ensures (L == 0 || ElementFrames(s, p, d) <= L) ==> Element(s, L, p, d) == Element(s, 0, p, d)
    ensures Element(s, L, p, d).ok ==>
      Element(s, L, p, d) == Element(s, 0, p, d) && (L == 0 || ElementFrames(s, p, d) <= L)
    decreases |s| - p, 5
  {
    ValueWithinLimit(s, L, SkipWs(s, p), d);
  }

  lemma {:induction false} ValueWithinLimit(s: seq<byte>, L: nat, p: nat, d: nat)
    requires p <= |s| && (L == 0 || d <= L)
    ensures (L == 0 || ValueFrames(s, p, d) <= L) ==> Value(s, L, p, d) == Value(s, 0, p, d)
    ensures Value(s, L, p, d).ok ==>
      Value(s, L, p, d) == Value(s, 0, p, d) && (L == 0 || ValueFrames(s, p, d) <= L)
    decreases |s| - p, 4
  {
    if p == |s| {
    } else if s[p] == LBRACE {
      ObjectWithinLimit(s, L, p, d);
    } else if s[p] == LBRACKET {
      ArrayWithinLimit(s, L, p, d);
    }
  }

  lemma {:induction false} ObjectWithinLimit(s: seq<byte>, L: nat, p: nat, d: nat)
    requires p < |s| && (L == 0 || d <= L)
    ensures (L == 0 || ObjectFrames(s, p, d) <= L) ==> ObjectValue(s, L, p, d) == ObjectValue(s, 0, p, d)
    ensures ObjectValue(s, L, p, d).ok ==>
      ObjectValue(s, L, p, d) == ObjectValue(s, 0, p, d) && (L == 0 || ObjectFrames(s, p, d) <= L)
    decreases |s| - p, 3
  {
    var q := SkipWs(s, p + 1);
    if !(q < |s| && s[q] == RBRACE) {
      MembersWithinLimit(s, L, q, d, p);
    }
  }

  lemma {:induction false} MembersWithinLimit(s: seq<byte>, L: nat, q: nat, d: nat, start: nat)
    requires start < q <= |s| && (L == 0 || d <= L)
    ensures (L == 0 || MembersFrames(s, q, d, start) <= L) ==>
      Members(s, L, q, d, start) == Members(s, 0, q, d, start)
    ensures Members(s, L, q, d, start).ok ==>
      Members(s, L, q, d, start) == Members(s, 0, q, d, start) && (L == 0 || MembersFrames(s, q, d, start) <= L)
    decreases |s| - q, 2
  {
    var k := MemberKey(s, q);
    if k.ok {
      MemberValueWithinLimit(s, L, k, d, start);
    }
  }

  lemma {:induction false} MemberValueWithinLimit(s: seq<byte>, L: nat, k: Run, d: nat, start: nat)
    requires k.ok && start < k.pos <= |s| && (L == 0 || d <= L)
    ensures (L == 0 || MemberValueFrames(s, k, d, start) <= L) ==>
      MemberValue(s, L, k, d, start) == MemberValue(s, 0, k, d, start)
    ensures MemberValue(s, L, k, d, start).ok ==>
      MemberValue(s, L, k, d, start) == MemberValue(s, 0, k, d, start) &&
      (L == 0 || MemberValueFrames(s, k, d, start) <= L)
    decreases |s| - k.pos, 6
  {
    if !(L > 0 && d + 1 > L) {
      ElementWithinLimit(s, L, k.pos, d + 1);
      var e := Element(s, 0, k.pos, d + 1);
      if e.ok {
        AfterMemberWithinLimit(s, L, e.pos, d, start);
      }
    }
  }

  lemma {:induction false} AfterMemberWithinLimit(s: seq<byte>, L: nat, r: nat, d: nat, start: nat)
    requires start < r <= |s| && (L == 0 || d <= L)
    ensures (L == 0 || AfterMemberFrames(s, r, d, start) <= L) ==>
      AfterMember(s, L, r, d, start) == AfterMember(s, 0, r, d, start)
    ensures AfterMember(s, L, r, d, start).ok ==>
      AfterMember(s, L, r, d, start) == AfterMember(s, 0, r, d, start) &&
      (L == 0 || AfterMemberFrames(s, r, d, start) <= L)
    decreases |s| - r, 1
  {
    if r < |s| && s[r] == COMMA {
      MembersWithinLimit(s, L, r + 1, d, start);
    }
  }

  lemma {:induction false} ArrayWithinLimit(s: seq<byte>, L: nat, p: nat, d: nat)
    requires p < |s| && (L == 0 || d <= L)
    ensures (L == 0 || ArrayFrames(s, p, d) <= L) ==> ArrayValue(s, L, p, d) == ArrayValue(s, 0, p, d)
    ensures ArrayValue(s, L, p, d).ok ==>
      ArrayValue(s, L, p, d) == ArrayValue(s, 0, p, d) && (L == 0 || ArrayFrames(s, p, d) <= L)
    decreases |s| - p, 3
  {
    var q := SkipWs(s, p + 1);
    if !(q < |s| && s[q] == RBRACKET) {
      ElementsWithinLimit(s, L, q, d, p);
    }
  }

  lemma {:induction false} ElementsWithinLimit(s: seq<byte>, L: nat, q: nat, d: nat, start: nat)
    requires start < q <= |s| && (L == 0 || d <= L)
    ensures (L == 0 || ElementsFrames(s, q, d, start) <= L) ==>
      Elements(s, L, q, d, start) == Elements(s, 0, q, d, start)
    ensures Elements(s, L, q, d, start).ok ==>
      Elements(s, L, q, d, start) == Elements(s, 0, q, d, start) &&
      (L == 0 || ElementsFrames(s, q, d, start) <= L)
    decreases |s| - q, 6
  {
    if !(L > 0 && d + 1 > L) {
      ElementWithinLimit(s, L, q, d + 1);
      var e := Element(s, 0, q, d + 1);
      if e.ok {
        AfterElementWithinLimit(s, L, e.pos, d, start);
      }
    }
  }

  lemma {:induction false} AfterElementWithinLimit(s: seq<byte>, L: nat, r: nat, d: nat, start: nat)
    requires start < r <= |s| && (L == 0 || d <= L)
    ensures (L == 0 || AfterElementFrames(s, r, d, start) <= L) ==>
      AfterElement(s, L, r, d, start) == AfterElement(s, 0, r, d, start)
    ensures AfterElement(s, L, r, d, start).ok ==>
      AfterElement(s, L, r, d, start) == AfterElement(s, 0, r, d, start) &&
      (L == 0 || AfterElementFrames(s, r, d, start) <= L)
    decreases |s| - r, 1
  {
    if r < |s| && s[r] == COMMA {
      ElementsWithinLimit(s, L, r + 1, d, start);
    }
  }

  /** A text parses under limit `L` exactly when it parses without a limit and
      needs no more than `L` frames; when it does, or whenever it needs no more
      than `L` frames, the limit changes nothing about the run. */
  lemma DepthLimitCharacterised(s: seq<byte>, L: nat)
    ensures ParseReference(s, L).ok <==> ParseReference(s, 0).ok && (L == 0 || TextFrames(s) <= L)
    ensures ParseReference(s, L).ok ==> ParseReference(s, L) == ParseReference(s, 0)
    ensures (L == 0 || TextFrames(s) <= L) ==> ParseReference(s, L) == ParseReference(s, 0)
  {
    ElementWithinLimit(s, L, 0, 1);
  }
}
