/** What the events of an accepted JSON text look like: they follow the visitor
    protocol (starts, keys and ends properly nested, one root value), and every
    span lies inside the input and covers the text it reports. JsonParser proves
    that `parse_json` reports exactly `ParseReference`'s events, so these are
    properties of the parser. */
module JsonGrammarProperties {
  import opened Bytes
  import opened Exception
  import opened JsonEvents
  import opened JsonGrammar
  import opened JsonNumberProperties

  // ---------------------------------------------------------------------------
  // The event protocol
  // ---------------------------------------------------------------------------

  /** A consumer inside an object (or array) whose enclosing nesting is `o`. */
  function Inside(o: seq<Open>, c: Open, done: bool): Nesting {
    Nesting(o + [c], done)
  }

  lemma WalkOne(n: Nesting, e: Event)
    ensures Walk(n, [e]) == Accept(n, e)
  {
    assert [e][1..] == [];
  }

  /** The events of an element that parses are one complete value wherever a
      value is expected. */
  lemma {:induction false} ElementProtocol(s: seq<byte>, L: nat, p: nat, d: nat, n: Nesting)
    requires p <= |s| && ExpectsValue(n)
    ensures Element(s, L, p, d).ok ==> Walk(n, Element(s, L, p, d).events) == Some(Completed(n))
    decreases |s| - p, 5
  {
    ValueProtocol(s, L, SkipWs(s, p), d, n);
  }

  lemma {:induction false} ValueProtocol(s: seq<byte>, L: nat, p: nat, d: nat, n: Nesting)
    requires p <= |s| && ExpectsValue(n)
    ensures Value(s, L, p, d).ok ==> Walk(n, Value(s, L, p, d).events) == Some(Completed(n))
    decreases |s| - p, 4
  {
    if p == |s| {
    } else if s[p] == LBRACE {
      ObjectProtocol(s, L, p, d, n);
    } else if s[p] == LBRACKET {
      ArrayProtocol(s, L, p, d, n);
    } else if Primitive(s, p).ok {
      WalkOne(n, Primitive(s, p).events[0]);
      assert Primitive(s, p).events == [Primitive(s, p).events[0]];
    }
  }

  lemma {:induction false} ObjectProtocol(s: seq<byte>, L: nat, p: nat, d: nat, n: Nesting)
    requires p < |s| && ExpectsValue(n)
    ensures ObjectValue(s, L, p, d).ok ==> Walk(n, ObjectValue(s, L, p, d).events) == Some(Completed(n))
    decreases |s| - p, 3
  {
    var q := SkipWs(s, p + 1);
    var m := Inside(n.open, InObject, n.done);
    assert Accept(n, ObjectStart(p)) == Some(m);
    assert m.open[..|m.open| - 1] == n.open;
    if q < |s| && s[q] == RBRACE {
      var evs := [ObjectStart(p), ObjectEnd(p, q + 1 - p)];
      assert evs[1..] == [ObjectEnd(p, q + 1 - p)];
      WalkOne(m, ObjectEnd(p, q + 1 - p));
    } else {
      MembersProtocol(s, L, q, d, p, n.open, n.done);
      WalkAppend(n, [ObjectStart(p)], Members(s, L, q, d, p).events);
      WalkOne(n, ObjectStart(p));
    }
  }

  /** Members up to the object's end close the object. */
  lemma {:induction false} MembersProtocol(s: seq<byte>, L: nat, q: nat, d: nat, start: nat, o: seq<Open>, done: bool)
    requires start < q <= |s|
    ensures Members(s, L, q, d, start).ok ==>
      Walk(Inside(o, InObject, done), Members(s, L, q, d, start).events) == Some(Completed(Nesting(o, done)))
    decreases |s| - q, 2
  {
    var k := MemberKey(s, q);
    if k.ok {
      MemberValueProtocol(s, L, k, d, start, o, done);
    }
  }

  lemma {:induction false} MemberValueProtocol(s: seq<byte>, L: nat, k: Run, d: nat, start: nat, o: seq<Open>, done: bool)
    requires k.ok && start < k.pos <= |s| && |k.events| == 1 && k.events[0].ObjectKey?
    ensures MemberValue(s, L, k, d, start).ok ==>
      Walk(Inside(o, InObject, done), MemberValue(s, L, k, d, start).events) == Some(Completed(Nesting(o, done)))
    decreases |s| - k.pos, 6
  {
    if !(L > 0 && d + 1 > L) {
      var e := Element(s, L, k.pos, d + 1);
      if e.ok {
        var a := AfterMember(s, L, e.pos, d, start);
        var n0 := Inside(o, InObject, done);
        var n1 := Inside(o + [InObject], AtKey, done);
        assert k.events == [k.events[0]];
        WalkOne(n0, k.events[0]);
        assert Walk(n0, k.events) == Some(n1);
        ElementProtocol(s, L, k.pos, d + 1, n1);
        assert n1.open[..|n1.open| - 1] == n0.open;
        assert Completed(n1) == n0;
        AfterMemberProtocol(s, L, e.pos, d, start, o, done);
        WalkAppend(n0, k.events, e.events);
        WalkAppend(n0, k.events + e.events, a.events);
      }
    }
  }

  lemma {:induction false} AfterMemberProtocol(s: seq<byte>, L: nat, r: nat, d: nat, start: nat, o: seq<Open>, done: bool)
    requires start < r <= |s|
    ensures AfterMember(s, L, r, d, start).ok ==>
      Walk(Inside(o, InObject, done), AfterMember(s, L, r, d, start).events) == Some(Completed(Nesting(o, done)))
    decreases |s| - r, 1
  {
    if r < |s| && s[r] == RBRACE {
      var n0 := Inside(o, InObject, done);
      assert n0.open[..|n0.open| - 1] == o;
      WalkOne(n0, ObjectEnd(start, r + 1 - start));
    } else if r < |s| && s[r] == COMMA {
      MembersProtocol(s, L, r + 1, d, start, o, done);
    }
  }

  lemma {:induction false} ArrayProtocol(s: seq<byte>, L: nat, p: nat, d: nat, n: Nesting)
    requires p < |s| && ExpectsValue(n)
    ensures ArrayValue(s, L, p, d).ok ==> Walk(n, ArrayValue(s, L, p, d).events) == Some(Completed(n))
    decreases |s| - p, 3
  {
    var q := SkipWs(s, p + 1);
    var m := Inside(n.open, InArray, n.done);
    assert Accept(n, ArrayStart(p)) == Some(m);
    assert m.open[..|m.open| - 1] == n.open;
    if q < |s| && s[q] == RBRACKET {
      var evs := [ArrayStart(p), ArrayEnd(p, q + 1 - p)];
      assert evs[1..] == [ArrayEnd(p, q + 1 - p)];
      WalkOne(m, ArrayEnd(p, q + 1 - p));
    } else {
      ElementsProtocol(s, L, q, d, p, n.open, n.done);
      WalkAppend(n, [ArrayStart(p)], Elements(s, L, q, d, p).events);
      WalkOne(n, ArrayStart(p));
    }
  }

  /** Elements up to the array's end close the array. */
  lemma {:induction false} ElementsProtocol(s: seq<byte>, L: nat, q: nat, d: nat, start: nat, o: seq<Open>, done: bool)
    requires start < q <= |s|
    ensures Elements(s, L, q, d, start).ok ==>
      Walk(Inside(o, InArray, done), Elements(s, L, q, d, start).events) == Some(Completed(Nesting(o, done)))
    decreases |s| - q, 6
  {
    if !(L > 0 && d + 1 > L) {
      var e := Element(s, L, q, d + 1);
      if e.ok {
        var n0 := Inside(o, InArray, done);
        ElementProtocol(s, L, q, d + 1, n0);
        AfterElementProtocol(s, L, e.pos, d, start, o, done);
        WalkAppend(n0, e.events, AfterElement(s, L, e.pos, d, start).events);
      }
    }
  }

  lemma {:induction false} AfterElementProtocol(s: seq<byte>, L: nat, r: nat, d: nat, start: nat, o: seq<Open>, done: bool)
    requires start < r <= |s|
    ensures AfterElement(s, L, r, d, start).ok ==>
      Walk(Inside(o, InArray, done), AfterElement(s, L, r, d, start).events) == Some(Completed(Nesting(o, done)))
    decreases |s| - r, 1
  {
    if r < |s| && s[r] == RBRACKET {
      var n0 := Inside(o, InArray, done);
      assert n0.open[..|n0.open| - 1] == o;
      WalkOne(n0, ArrayEnd(start, r + 1 - start));
    } else if r < |s| && s[r] == COMMA {
      ElementsProtocol(s, L, r + 1, d, start, o, done);
    }
  }

  /** The events of every accepted text are the complete event stream of one
      root value: starts before children, one key before each member's value,
      ends after all children, properly nested. */
  lemma ParseProtocol(s: seq<byte>, L: nat)
    ensures ParseReference(s, L).ok ==> OneValue(ParseReference(s, L).events)
  {
    ElementProtocol(s, L, 0, 1, START);
  }

  // ---------------------------------------------------------------------------
  // Spans
  // ---------------------------------------------------------------------------

  /** The text a primitive's span covers: a string's raw bytes strictly between
      its quotes, a number token, or the literal itself. */
  ghost predicate PrimitiveText(s: seq<byte>, kind: ValueType, st: nat, len: nat)
    requires st + len <= |s|
  {
    match kind
    case String => 0 < st && st + len < |s| && s[st - 1] == QUOTE && s[st + len] == QUOTE
    case Number => NumberToken(s[st..st + len])
    case True => s[st..st + len] == TRUE_BYTES
    case False => s[st..st + len] == FALSE_BYTES
    case Null => s[st..st + len] == NULL_BYTES
    case _ => false
  }

  /** An event's span lies between `lo` and `hi` and covers what it reports:
      a start its bracket, a key the bytes between its quotes, an end the
      whole collection from its opening bracket through its closing one. */
  ghost predicate EventInside(s: seq<byte>, e: Event, lo: nat, hi: nat)
    requires hi <= |s|
  {
    match e
    case ObjectStart(st) => lo <= st < hi && s[st] == LBRACE
    case ArrayStart(st) => lo <= st < hi && s[st] == LBRACKET
    case ObjectKey(st, len) => lo < st && st + len < hi && s[st - 1] == QUOTE && s[st + len] == QUOTE
    case ObjectEnd(st, len) =>
      lo <= st && 2 <= len && st + len <= hi && s[st] == LBRACE && s[st + len - 1] == RBRACE
    case ArrayEnd(st, len) =>
      lo <= st && 2 <= len && st + len <= hi && s[st] == LBRACKET && s[st + len - 1] == RBRACKET
    case PrimitiveValue(kind, st, len) =>
      lo <= st && st + len <= hi && (kind == String ==> lo < st) && PrimitiveText(s, kind, st, len)
  }

  ghost predicate AllInside(s: seq<byte>, evs: seq<Event>, lo: nat, hi: nat)
    requires hi <= |s|
  {
    forall i :: 0 <= i < |evs| ==> EventInside(s, evs[i], lo, hi)
  }

  lemma InsideWiden(s: seq<byte>, evs: seq<Event>, lo: nat, hi: nat, lo': nat, hi': nat)
    requires lo' <= lo && hi <= hi' <= |s| && AllInside(s, evs, lo, hi)
    ensures AllInside(s, evs, lo', hi')
  {
    forall i | 0 <= i < |evs|
      ensures EventInside(s, evs[i], lo', hi')
    {
      assert EventInside(s, evs[i], lo, hi);
    }
  }

  lemma InsideAppend(s: seq<byte>, a: seq<Event>, b: seq<Event>, lo: nat, hi: nat)
    requires hi <= |s| && AllInside(s, a, lo, hi) && AllInside(s, b, lo, hi)
    ensures AllInside(s, a + b, lo, hi)
  {
    forall i | 0 <= i < |a + b|
      ensures EventInside(s, (a + b)[i], lo, hi)
    {
      if i < |a| {
        assert (a + b)[i] == a[i];
      } else {
        assert (a + b)[i] == b[i - |a|];
      }
    }
  }

  lemma PrimitiveInside(s: seq<byte>, p: nat)
    requires p < |s|
    ensures AllInside(s, Primitive(s, p).events, p, Primitive(s, p).pos)
  {
    if s[p] == QUOTE {
      StringInside(s, p);
    } else if s[p] == MINUS || IsDec(s[p]) {
      NumberInside(s, p);
    } else {
      var r := Primitive(s, p);
      if r.ok {
        assert r.events == [r.events[0]];
        assert EventInside(s, r.events[0], p, r.pos);
      }
    }
  }

  lemma StringInside(s: seq<byte>, p: nat)
    requires p < |s| && s[p] == QUOTE
    ensures AllInside(s, Primitive(s, p).events, p, Primitive(s, p).pos)
  {
    var l := StringLex(s, p);
    if l.Lexed? {
      var e := l.end;
      assert Primitive(s, p).events == [PrimitiveValue(String, p + 1, e - p - 2)];
      assert EventInside(s, PrimitiveValue(String, p + 1, e - p - 2), p, e);
    }
  }

  lemma NumberInside(s: seq<byte>, p: nat)
    requires p < |s| && s[p] != QUOTE && (s[p] == MINUS || IsDec(s[p]))
    ensures AllInside(s, Primitive(s, p).events, p, Primitive(s, p).pos)
  {
    var l := NumberLex(s, p);
    NumberLexSound(s, p);
    if l.Lexed? {
      var e := l.end;
      assert Primitive(s, p).events == [PrimitiveValue(Number, p, e - p)];
      assert EventInside(s, PrimitiveValue(Number, p, e - p), p, e);
    }
  }

  /** Every event of an element lies within the text the element read. */
  lemma {:induction false} ElementInside(s: seq<byte>, L: nat, p: nat, d: nat)
    requires p <= |s|
    ensures AllInside(s, Element(s, L, p, d).events, p, Element(s, L, p, d).pos)
    decreases |s| - p, 5
  {
    var v := Value(s, L, SkipWs(s, p), d);
    ValueInside(s, L, SkipWs(s, p), d);
    InsideWiden(s, v.events, SkipWs(s, p), v.pos, p, Element(s, L, p, d).pos);
  }

  lemma {:induction false} ValueInside(s: seq<byte>, L: nat, p: nat, d: nat)
    requires p <= |s|
    ensures AllInside(s, Value(s, L, p, d).events, p, Value(s, L, p, d).pos)
    decreases |s| - p, 4
  {
    if p == |s| {
    } else if s[p] == LBRACE {
      ObjectInside(s, L, p, d);
    } else if s[p] == LBRACKET {
      ArrayInside(s, L, p, d);
    } else {
      PrimitiveInside(s, p);
    }
  }

  lemma {:induction false} ObjectInside(s: seq<byte>, L: nat, p: nat, d: nat)
    requires p < |s| && s[p] == LBRACE
    ensures AllInside(s, ObjectValue(s, L, p, d).events, p, ObjectValue(s, L, p, d).pos)
    decreases |s| - p, 3
  {
    var q := SkipWs(s, p + 1);
    var r := ObjectValue(s, L, p, d);
    if q < |s| && s[q] == RBRACE {
      assert EventInside(s, r.events[0], p, r.pos);
      assert EventInside(s, r.events[1], p, r.pos);
    } else {
      var m := Members(s, L, q, d, p);
      MembersInside(s, L, q, d, p);
      assert EventInside(s, ObjectStart(p), p, r.pos);
      InsideAppend(s, [ObjectStart(p)], m.events, p, r.pos);
    }
  }

  /** The events of members, including the object's end, lie between the
      object's '{' at `start` and where the members stop. */
  lemma {:induction false} MembersInside(s: seq<byte>, L: nat, q: nat, d: nat, start: nat)
    requires start < q <= |s| && s[start] == LBRACE
    ensures AllInside(s, Members(s, L, q, d, start).events, start, Members(s, L, q, d, start).pos)
    decreases |s| - q, 2
  {
    var k := MemberKey(s, q);
    MemberKeyInside(s, q);
    InsideWiden(s, k.events, q, k.pos, start, k.pos);
    if k.ok {
      MemberValueInside(s, L, k, d, start);
    }
  }

  lemma MemberKeyInside(s: seq<byte>, q: nat)
    requires q <= |s|
    ensures AllInside(s, MemberKey(s, q).events, q, MemberKey(s, q).pos)
  {
    var r := MemberKey(s, q);
    if r.events != [] {
      assert r.events == [r.events[0]];
      assert EventInside(s, r.events[0], q, r.pos);
    }
  }

  lemma {:induction false} MemberValueInside(s: seq<byte>, L: nat, k: Run, d: nat, start: nat)
    requires k.ok && start < k.pos <= |s| && s[start] == LBRACE && AllInside(s, k.events, start, k.pos)
    ensures AllInside(s, MemberValue(s, L, k, d, start).events, start, MemberValue(s, L, k, d, start).pos)
    decreases |s| - k.pos, 6
  {
    var r := MemberValue(s, L, k, d, start);
    if !(L > 0 && d + 1 > L) {
      var e := Element(s, L, k.pos, d + 1);
      ElementInside(s, L, k.pos, d + 1);
      InsideWiden(s, k.events, start, k.pos, start, r.pos);
      if !e.ok {
        InsideWiden(s, e.events, k.pos, e.pos, start, r.pos);
        InsideAppend(s, k.events, e.events, start, r.pos);
      } else {
        var a := AfterMember(s, L, e.pos, d, start);
        AfterMemberInside(s, L, e.pos, d, start);
        InsideWiden(s, e.events, k.pos, e.pos, start, r.pos);
        InsideAppend(s, k.events, e.events, start, r.pos);
        InsideAppend(s, k.events + e.events, a.events, start, r.pos);
      }
    }
  }

  lemma {:induction false} AfterMemberInside(s: seq<byte>, L: nat, r: nat, d: nat, start: nat)
    requires start < r <= |s| && s[start] == LBRACE
    ensures AllInside(s, AfterMember(s, L, r, d, start).events, start, AfterMember(s, L, r, d, start).pos)
    decreases |s| - r, 1
  {
    var x := AfterMember(s, L, r, d, start);
    if r < |s| && s[r] == RBRACE {
      assert EventInside(s, x.events[0], start, x.pos);
    } else if r < |s| && s[r] == COMMA {
      MembersInside(s, L, r + 1, d, start);
    }
  }

  lemma {:induction false} ArrayInside(s: seq<byte>, L: nat, p: nat, d: nat)
    requires p < |s| && s[p] == LBRACKET
    ensures AllInside(s, ArrayValue(s, L, p, d).events, p, ArrayValue(s, L, p, d).pos)
    decreases |s| - p, 3
  {
    var q := SkipWs(s, p + 1);
    var r := ArrayValue(s, L, p, d);
    if q < |s| && s[q] == RBRACKET {
      assert EventInside(s, r.events[0], p, r.pos);
      assert EventInside(s, r.events[1], p, r.pos);
    } else {
      var m := Elements(s, L, q, d, p);
      ElementsInside(s, L, q, d, p);
      assert EventInside(s, ArrayStart(p), p, r.pos);
      InsideAppend(s, [ArrayStart(p)], m.events, p, r.pos);
    }
  }

  /** The events of elements, including the array's end, lie between the
      array's '[' at `start` and where the elements stop. */
  lemma {:induction false} ElementsInside(s: seq<byte>, L: nat, q: nat, d: nat, start: nat)
    requires start < q <= |s| && s[start] == LBRACKET
    ensures AllInside(s, Elements(s, L, q, d, start).events, start, Elements(s, L, q, d, start).pos)
    decreases |s| - q, 6
  {
    var r := Elements(s, L, q, d, start);
    if !(L > 0 && d + 1 > L) {
      var e := Element(s, L, q, d + 1);
      ElementInside(s, L, q, d + 1);
      InsideWiden(s, e.events, q, e.pos, start, r.pos);
      if e.ok {
        var a := AfterElement(s, L, e.pos, d, start);
        AfterElementInside(s, L, e.pos, d, start);
        InsideAppend(s, e.events, a.events, start, r.pos);
      }
    }
  }

  lemma {:induction false} AfterElementInside(s: seq<byte>, L: nat, r: nat, d: nat, start: nat)
    requires start < r <= |s| && s[start] == LBRACKET
    ensures AllInside(s, AfterElement(s, L, r, d, start).events, start, AfterElement(s, L, r, d, start).pos)
    decreases |s| - r, 1
  {
    var x := AfterElement(s, L, r, d, start);
    if r < |s| && s[r] == RBRACKET {
      assert EventInside(s, x.events[0], start, x.pos);
    } else if r < |s| && s[r] == COMMA {
      ElementsInside(s, L, r + 1, d, start);
    }
  }

  /** Every span the parser reports, accepted or not, lies inside the input and
      covers the text it stands for: strings and keys without their quotes,
      numbers as tokens of section 6 of RFC 8259, literals as themselves, and
      collections from bracket to bracket. */
  lemma ParseSpans(s: seq<byte>, L: nat)
    ensures AllInside(s, ParseReference(s, L).events, 0, ParseReference(s, L).pos)
  {
    var e := Element(s, L, 0, 1);
    ElementInside(s, L, 0, 1);
  }
}
