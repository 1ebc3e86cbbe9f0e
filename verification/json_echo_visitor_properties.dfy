/** What the echo printer writes, against an independent description of the
    nesting it is inside.

    A `Level` is an open collection as far as the event protocol has taken it:
    an array with the number of its elements completed, or an object with the
    number of keys read and whether the latest key still waits for its value.
    The printer's stack is shown to be exactly the root entry followed by one
    state per level, and each event to write exactly `Expected`: a comma and a
    new line before every array element and object key but the first, and
    every new line indented once per open collection. */
module JsonEchoVisitorProperties {
  import opened Bytes
  import opened Exception
  import JsonEvents
  import opened JsonEchoVisitor
  import JsonGrammar
  import JsonGrammarProperties

  /** An open collection and how many of its members are complete; an object
      also says whether a key has been read whose value has not completed. */
  datatype Level = ArrayLevel(items: nat) | ObjectLevel(members: nat, atKey: bool)

  /** The stack entry a level is kept as. */
  function StateOf(l: Level): State {
    match l
    case ArrayLevel(n) => if n == 0 then StartArray else InArray
    case ObjectLevel(k, atKey) =>
      if atKey then (if k == 0 then FirstKeySeen else SubsequentKey)
      else if k == 0 then StartObject else InObject
  }

  /** The stack that keeps `levels`: the root entry and one state per level. */
  function Stack(levels: seq<Level>): (r: seq<State>)
    ensures |r| == |levels| + 1 && r[0] == Root
    ensures JsonEvents.Last(r) == if levels == [] then Root else StateOf(JsonEvents.Last(levels))
    decreases |levels|
  {
    if levels == [] then [Root] else Stack(JsonEvents.DropLast(levels)) + [StateOf(JsonEvents.Last(levels))]
  }

  function OpensOf(l: Level): seq<JsonEvents.Open> {
    match l
    case ArrayLevel(_) => [JsonEvents.InArray]
    case ObjectLevel(_, atKey) => if atKey then [JsonEvents.InObject, JsonEvents.AtKey] else [JsonEvents.InObject]
  }

  /** The protocol's nesting for `levels`: a key waiting for its value is open
      inside its object. */
  function Opens(levels: seq<Level>): seq<JsonEvents.Open>
    decreases |levels|
  {
    if levels == [] then [] else Opens(JsonEvents.DropLast(levels)) + OpensOf(JsonEvents.Last(levels))
  }

  /** A level after a value completes in it: one more element, or the pending
      key's member complete. */
  function Completed(l: Level): Level {
    match l
    case ArrayLevel(m) => ArrayLevel(m + 1)
    case ObjectLevel(k, atKey) => if atKey then ObjectLevel(k + 1, false) else l
  }

  /** A value completes in the innermost level. */
  function Complete(levels: seq<Level>): seq<Level> {
    if levels == [] then [] else JsonEvents.DropLast(levels) + [Completed(JsonEvents.Last(levels))]
  }

  /** The levels after an event. */
  function LevelsAfter(levels: seq<Level>, e: JsonEvents.Event): seq<Level> {
    match e
    case ObjectStart(_) => levels + [ObjectLevel(0, false)]
    case ArrayStart(_) => levels + [ArrayLevel(0)]
    case ObjectKey(_, _) =>
      if levels == [] then []
      else (match JsonEvents.Last(levels)
            case ObjectLevel(k, _) => JsonEvents.DropLast(levels) + [ObjectLevel(k, true)]
            case ArrayLevel(_) => levels)
    case PrimitiveValue(_, _, _) => Complete(levels)
    case ObjectEnd(_, _) => if levels == [] then [] else Complete(JsonEvents.DropLast(levels))
    case ArrayEnd(_, _) => if levels == [] then [] else Complete(JsonEvents.DropLast(levels))
  }

  /** The event is an array element or an object key that is not the first of
      its collection. */
  predicate Later(levels: seq<Level>, e: JsonEvents.Event) {
    levels != [] &&
    match JsonEvents.Last(levels)
    case ArrayLevel(n) => JsonEvents.IsValueStart(e) && n > 0
    case ObjectLevel(k, atKey) => e.ObjectKey? && !atKey && k > 0
  }

  /** A line break followed by `depth` indents. */
  function Line(indent: seq<byte>, depth: nat): seq<byte> {
    [LF] + Indents(indent, depth)
  }

  /** What the printer is to write for event `e` of the input `s` with
      `levels` open. */
  function Expected(indent: seq<byte>, levels: seq<Level>, s: seq<byte>, e: JsonEvents.Event): seq<byte> {
    var sep := if Later(levels, e) then [COMMA] + Line(indent, |levels|) else [];
    match e
    case ObjectStart(_) => sep + [LBRACE] + Line(indent, |levels| + 1)
    case ArrayStart(_) => sep + [LBRACKET] + Line(indent, |levels| + 1)
    case ObjectKey(start, length) => sep + [QUOTE] + JsonEvents.Span(s, start, length) + [QUOTE, COLON, SPACE]
    case PrimitiveValue(kind, start, length) =>
      var t := JsonEvents.Span(s, start, length);
      sep + (if kind == JsonEvents.String then [QUOTE] + t + [QUOTE] else t)
    case ObjectEnd(_, _) => Line(indent, if levels == [] then 0 else |levels| - 1) + [RBRACE]
    case ArrayEnd(_, _) => Line(indent, if levels == [] then 0 else |levels| - 1) + [RBRACKET]
  }

  /** What the printer is to write for a sequence of events. */
  function ExpectedAll(indent: seq<byte>, levels: seq<Level>, s: seq<byte>, evs: seq<JsonEvents.Event>): seq<byte>
    decreases |evs|
  {
    if evs == [] then []
    else Expected(indent, levels, s, evs[0]) + ExpectedAll(indent, LevelsAfter(levels, evs[0]), s, evs[1..])
  }

  // ---------------------------------------------------------------------------
  // The stack keeps the levels
  // ---------------------------------------------------------------------------

  lemma StackPush(levels: seq<Level>, l: Level)
    ensures Stack(levels + [l]) == Stack(levels) + [StateOf(l)]
  {
    assert JsonEvents.DropLast(levels + [l]) == levels;
  }

  lemma OpensPush(levels: seq<Level>, l: Level)
    ensures Opens(levels + [l]) == Opens(levels) + OpensOf(l)
  {
    assert JsonEvents.DropLast(levels + [l]) == levels;
  }

  /** The innermost open entry of the protocol belongs to the innermost level. */
  lemma OpensLast(levels: seq<Level>)
    ensures Opens(levels) == [] <==> levels == []
    ensures levels != [] ==> JsonEvents.Last(Opens(levels)) == JsonEvents.Last(OpensOf(JsonEvents.Last(levels)))
  {
  }

  lemma Split(levels: seq<Level>)
    requires levels != []
    ensures levels == JsonEvents.DropLast(levels) + [JsonEvents.Last(levels)]
    ensures JsonEvents.DropLast(Stack(levels)) == Stack(JsonEvents.DropLast(levels))
  {
    var init, l := JsonEvents.DropLast(levels), JsonEvents.Last(levels);
    assert levels == init + [l] by {
      assert |levels| == |init| + 1;
      assert forall k :: 0 <= k < |init| ==> levels[k] == init[k];
    }
    DropPushed(Stack(init), StateOf(l));
  }

  lemma DropPushed<T>(r: seq<T>, x: T)
    ensures JsonEvents.DropLast(r + [x]) == r
  {
    assert (r + [x])[..|r|] == r;
  }

  /** Completing a value settles the innermost stack entry as it moves the
      innermost level on. */
  lemma CompleteStack(levels: seq<Level>)
    ensures Settle(Stack(levels)) == Stack(Complete(levels))
  {
    if levels != [] {
      var init := JsonEvents.DropLast(levels);
      var l := JsonEvents.Last(levels);
      Split(levels);
      StackPush(init, Completed(l));
    }
  }

  /** Completing a value follows the protocol's `Completed`. */
  lemma CompleteOpens(levels: seq<Level>, n: JsonEvents.Nesting)
    requires Opens(levels) == n.open
    ensures Opens(Complete(levels)) == JsonEvents.Completed(n).open
  {
    if levels != [] {
      var init := JsonEvents.DropLast(levels);
      var l := JsonEvents.Last(levels);
      Split(levels);
      OpensPush(init, Completed(l));
      OpensPush(init, l);
      match l
      case ArrayLevel(_) =>
        assert JsonEvents.Completed(n) == n;
      case ObjectLevel(_, atKey) =>
        if atKey {
          assert n.open == Opens(init) + [JsonEvents.InObject] + [JsonEvents.AtKey];
          assert JsonEvents.Completed(n).open == Opens(init) + [JsonEvents.InObject];
        } else {
          assert JsonEvents.Completed(n) == n;
        }
    }
  }

  /** A key marks its object as waiting for the key's value. */
  lemma KeyTracks(indent: seq<byte>, levels: seq<Level>, n: JsonEvents.Nesting, key: seq<byte>)
    requires Opens(levels) == n.open
    requires n.open != [] && JsonEvents.Last(n.open) == JsonEvents.InObject
    ensures levels != [] && JsonEvents.Last(levels).ObjectLevel?
    ensures KeyPrinted(indent, Stack(levels), key).stack == Stack(LevelsAfter(levels, JsonEvents.ObjectKey(0, 0)))
    ensures Opens(LevelsAfter(levels, JsonEvents.ObjectKey(0, 0))) == n.open + [JsonEvents.AtKey]
  {
    OpensLast(levels);
    var init := JsonEvents.DropLast(levels);
    var l := JsonEvents.Last(levels);
    Split(levels);
    assert l.ObjectLevel? && !l.atKey by {
      match l
      case ArrayLevel(_) =>
      case ObjectLevel(_, atKey) =>
    }
    var next := ObjectLevel(l.members, true);
    assert LevelsAfter(levels, JsonEvents.ObjectKey(0, 0)) == init + [next];
    StackPush(init, next);
    OpensPush(init, next);
    OpensPush(init, l);
  }

  /** An end pops its collection's level, and the enclosing one completes a
      value. */
  lemma EndTracks(levels: seq<Level>, n: JsonEvents.Nesting, inObject: bool)
    requires Opens(levels) == n.open
    requires n.open != [] && JsonEvents.Last(n.open) == if inObject then JsonEvents.InObject else JsonEvents.InArray
    ensures |levels| >= 1
    ensures Settle(JsonEvents.DropLast(Stack(levels))) == Stack(Complete(JsonEvents.DropLast(levels)))
    ensures Opens(Complete(JsonEvents.DropLast(levels)))
         == JsonEvents.Completed(JsonEvents.Nesting(JsonEvents.DropLast(n.open), n.done)).open
  {
    OpensLast(levels);
    var init := JsonEvents.DropLast(levels);
    var l := JsonEvents.Last(levels);
    Split(levels);
    OpensPush(init, l);
    assert JsonEvents.DropLast(n.open) == Opens(init) by {
      match l
      case ArrayLevel(_) =>
      case ObjectLevel(_, atKey) => assert !atKey;
    }
    CompleteStack(init);
    CompleteOpens(init, JsonEvents.Nesting(JsonEvents.DropLast(n.open), n.done));
  }

  /** Every event the protocol accepts is printed, and moves the stack from
      that of the levels before it to that of the levels after it. */
  lemma EchoTracks(indent: seq<byte>, levels: seq<Level>, n: JsonEvents.Nesting, s: seq<byte>, e: JsonEvents.Event)
    requires Opens(levels) == n.open && JsonEvents.Accept(n, e).Some?
    ensures Echo(indent, Stack(levels), s, e).Some?
    ensures Echo(indent, Stack(levels), s, e).value.stack == Stack(LevelsAfter(levels, e))
    ensures Opens(LevelsAfter(levels, e)) == JsonEvents.Accept(n, e).value.open
  {
    match e
    case ObjectStart(_) =>
      StackPush(levels, ObjectLevel(0, false));
      OpensPush(levels, ObjectLevel(0, false));
    case ArrayStart(_) =>
      StackPush(levels, ArrayLevel(0));
      OpensPush(levels, ArrayLevel(0));
    case ObjectKey(start, length) =>
      KeyTracks(indent, levels, n, JsonEvents.Span(s, start, length));
      assert LevelsAfter(levels, e) == LevelsAfter(levels, JsonEvents.ObjectKey(0, 0));
    case PrimitiveValue(_, _, _) =>
      CompleteStack(levels);
      CompleteOpens(levels, n);
    case ObjectEnd(_, _) =>
      EndTracks(levels, n, true);
    case ArrayEnd(_, _) =>
      EndTracks(levels, n, false);
  }

  // ---------------------------------------------------------------------------
  // What is written
  // ---------------------------------------------------------------------------

  /** A new line with the stack of `levels` is indented once per level. */
  lemma NewLineDepth(indent: seq<byte>, levels: seq<Level>)
    ensures NewLine(indent, |Stack(levels)|) == Line(indent, |levels|)
    ensures levels != [] ==> NewLine(indent, |levels|) == Line(indent, |levels| - 1)
  {
  }

  /** Where a value may start, the innermost stack entry is never `InObject`:
      the `in_object` branch of `on_object_start` and `on_array_start` is not
      reached by any event stream the protocol accepts. */
  lemma ValueNeverAfterValueInObject(levels: seq<Level>, n: JsonEvents.Nesting)
    requires Opens(levels) == n.open && JsonEvents.ExpectsValue(n)
    ensures JsonEvents.Last(Stack(levels)) != InObject
    ensures JsonEvents.Last(Stack(levels)) == InArray <==> levels != [] && JsonEvents.Last(levels).ArrayLevel? && JsonEvents.Last(levels).items > 0
  {
    OpensLast(levels);
    if levels != [] {
      match JsonEvents.Last(levels)
      case ArrayLevel(_) =>
      case ObjectLevel(_, atKey) => assert atKey;
    }
  }

  /** A key follows a value in its object exactly when it is not the object's
      first key. */
  lemma KeySeparated(levels: seq<Level>, n: JsonEvents.Nesting)
    requires Opens(levels) == n.open && n.open != [] && JsonEvents.Last(n.open) == JsonEvents.InObject
    ensures JsonEvents.Last(Stack(levels)) == InObject <==> Later(levels, JsonEvents.ObjectKey(0, 0))
  {
    OpensLast(levels);
    match JsonEvents.Last(levels)
    case ArrayLevel(_) =>
    case ObjectLevel(_, atKey) => assert !atKey;
  }

  /** A collection start: a separator after an earlier array element, the
      bracket, and a new line one level deeper. */
  lemma StartWrites(indent: seq<byte>, levels: seq<Level>, n: JsonEvents.Nesting, s: seq<byte>, e: JsonEvents.Event)
    requires Opens(levels) == n.open && JsonEvents.ExpectsValue(n) && (e.ObjectStart? || e.ArrayStart?)
    ensures Echo(indent, Stack(levels), s, e).Some?
    ensures Echo(indent, Stack(levels), s, e).value.text == Expected(indent, levels, s, e)
  {
    var stack := Stack(levels);
    var sep := if Later(levels, e) then [COMMA] + Line(indent, |levels|) else [];
    ValueNeverAfterValueInObject(levels, n);
    NewLineDepth(indent, levels);
    assert Separator(indent, |stack|, JsonEvents.Last(stack) == InArray || JsonEvents.Last(stack) == InObject) == sep;
    assert NewLine(indent, |stack| + 1) == Line(indent, |levels| + 1);
    var b := if e.ObjectStart? then LBRACE else LBRACKET;
    var line := Line(indent, |levels| + 1);
    assert Echo(indent, stack, s, e).value.text == sep + ([b] + line);
    assert Expected(indent, levels, s, e) == sep + [b] + line;
    AppendAssoc(sep, [b], line);
  }

  /** A key: a separator exactly when the key is not its object's first,
      then `"key": `. */
  lemma KeyWrites(indent: seq<byte>, levels: seq<Level>, n: JsonEvents.Nesting, s: seq<byte>, start: nat, length: nat)
    requires Opens(levels) == n.open && n.open != [] && JsonEvents.Last(n.open) == JsonEvents.InObject
    ensures Echo(indent, Stack(levels), s, JsonEvents.ObjectKey(start, length)).Some?
    ensures Echo(indent, Stack(levels), s, JsonEvents.ObjectKey(start, length)).value.text
         == Expected(indent, levels, s, JsonEvents.ObjectKey(start, length))
  {
    var e := JsonEvents.ObjectKey(start, length);
    var stack := Stack(levels);
    var sep := if Later(levels, e) then [COMMA] + Line(indent, |levels|) else [];
    KeySeparated(levels, n);
    NewLineDepth(indent, levels);
    assert Later(levels, e) == Later(levels, JsonEvents.ObjectKey(0, 0));
    assert Separator(indent, |stack|, JsonEvents.Last(stack) == InObject) == sep;
    var key := JsonEvents.Span(s, start, length);
    var tail: seq<byte> := [QUOTE, COLON, SPACE];
    assert Echo(indent, stack, s, e).value.text == sep + ([QUOTE] + key + tail);
    assert Expected(indent, levels, s, e) == sep + [QUOTE] + key + tail;
    AppendAssoc(sep, [QUOTE] + key, tail);
    AppendAssoc(sep, [QUOTE], key);
  }

  /** A primitive: a separator after an earlier array element, then the
      value, quoted when it is a string. */
  lemma PrimitiveWrites(indent: seq<byte>, levels: seq<Level>, n: JsonEvents.Nesting, s: seq<byte>, kind: JsonEvents.ValueType, start: nat, length: nat)
    requires Opens(levels) == n.open && JsonEvents.ExpectsValue(n)
    ensures Echo(indent, Stack(levels), s, JsonEvents.PrimitiveValue(kind, start, length)).Some?
    ensures Echo(indent, Stack(levels), s, JsonEvents.PrimitiveValue(kind, start, length)).value.text
         == Expected(indent, levels, s, JsonEvents.PrimitiveValue(kind, start, length))
  {
    var e := JsonEvents.PrimitiveValue(kind, start, length);
    var stack := Stack(levels);
    var sep := if Later(levels, e) then [COMMA] + Line(indent, |levels|) else [];
    ValueNeverAfterValueInObject(levels, n);
    NewLineDepth(indent, levels);
    assert Separator(indent, |stack|, JsonEvents.Last(stack) == InArray) == sep;
  }

  /** An end: a new line at the depth of the collection's own start, then
      the bracket. */
  lemma EndWrites(indent: seq<byte>, levels: seq<Level>, s: seq<byte>, e: JsonEvents.Event)
    requires levels != [] && (e.ObjectEnd? || e.ArrayEnd?)
    ensures Echo(indent, Stack(levels), s, e).Some?
    ensures Echo(indent, Stack(levels), s, e).value.text == Expected(indent, levels, s, e)
  {
    NewLineDepth(indent, levels);
  }

  /** Every event the protocol accepts writes exactly what `Expected` says: a
      comma and a new line before an array element or object key that is not
      the first of its collection and nowhere else, and every new line
      indented once per collection open around it. */
  lemma EchoWrites(indent: seq<byte>, levels: seq<Level>, n: JsonEvents.Nesting, s: seq<byte>, e: JsonEvents.Event)
    requires Opens(levels) == n.open && JsonEvents.Accept(n, e).Some?
    ensures Echo(indent, Stack(levels), s, e).Some?
    ensures Echo(indent, Stack(levels), s, e).value.text == Expected(indent, levels, s, e)
  {
    OpensLast(levels);
    match e
    case ObjectStart(_) => StartWrites(indent, levels, n, s, e);
    case ArrayStart(_) => StartWrites(indent, levels, n, s, e);
    case ObjectKey(start, length) => KeyWrites(indent, levels, n, s, start, length);
    case PrimitiveValue(kind, start, length) => PrimitiveWrites(indent, levels, n, s, kind, start, length);
    case ObjectEnd(_, _) => EndWrites(indent, levels, s, e);
    case ArrayEnd(_, _) => EndWrites(indent, levels, s, e);
  }

  /** A whole sequence of events the protocol accepts is printed as
      `ExpectedAll` says, leaving the stack of the levels open at its end. */
  lemma {:induction false} EchoAllWrites(indent: seq<byte>, levels: seq<Level>, n: JsonEvents.Nesting, s: seq<byte>, evs: seq<JsonEvents.Event>)
    returns (final: seq<Level>)
    requires Opens(levels) == n.open && JsonEvents.Walk(n, evs).Some?
    ensures EchoAll(indent, Stack(levels), s, evs) == Some(Printed(Stack(final), ExpectedAll(indent, levels, s, evs)))
    ensures Opens(final) == JsonEvents.Walk(n, evs).value.open
    decreases |evs|
  {
    if evs == [] {
      final := levels;
    } else {
      EchoTracks(indent, levels, n, s, evs[0]);
      EchoWrites(indent, levels, n, s, evs[0]);
      final := EchoAllWrites(indent, LevelsAfter(levels, evs[0]), JsonEvents.Accept(n, evs[0]).value, s, evs[1..]);
    }
  }

  /** The events of one whole root value, handed to a fresh printer, are
      written as `ExpectedAll` says and leave the stack at the root entry
      alone. */
  lemma PrintsOneValue(indent: seq<byte>, s: seq<byte>, evs: seq<JsonEvents.Event>)
    requires JsonEvents.OneValue(evs)
    ensures EchoAll(indent, [Root], s, evs) == Some(Printed([Root], ExpectedAll(indent, [], s, evs)))
  {
    var final := EchoAllWrites(indent, [], JsonEvents.START, s, evs);
    OpensLast(final);
  }

  /** `JsonParser<JsonEchoVisitor>`: every input that parses is printed, and
      the printer ends back at its root entry. */
  lemma PrintsParse(indent: seq<byte>, s: seq<byte>, depthLimit: nat)
    requires JsonGrammar.ParseReference(s, depthLimit).ok
    ensures EchoAll(indent, [Root], s, JsonGrammar.ParseReference(s, depthLimit).events)
         == Some(Printed([Root], ExpectedAll(indent, [], s, JsonGrammar.ParseReference(s, depthLimit).events)))
  {
    JsonGrammarProperties.ParseProtocol(s, depthLimit);
    PrintsOneValue(indent, s, JsonGrammar.ParseReference(s, depthLimit).events);
  }

  /** An empty array is not printed as `[]`: the bracket, a new line indented
      one level deeper, a new line at the array's own depth, and the closing
      bracket. */
  lemma EmptyArrayText(indent: seq<byte>, levels: seq<Level>, n: JsonEvents.Nesting, s: seq<byte>, a: nat, b: nat, c: nat)
    requires Opens(levels) == n.open && JsonEvents.ExpectsValue(n)
    ensures EchoAll(indent, Stack(levels), s, [JsonEvents.ArrayStart(a), JsonEvents.ArrayEnd(b, c)]).Some?
    ensures EchoAll(indent, Stack(levels), s, [JsonEvents.ArrayStart(a), JsonEvents.ArrayEnd(b, c)]).value.text
         == (if Later(levels, JsonEvents.ArrayStart(a)) then [COMMA] + Line(indent, |levels|) else [])
            + [LBRACKET] + Line(indent, |levels| + 1) + (Line(indent, |levels|) + [RBRACKET])
  {
    var evs := [JsonEvents.ArrayStart(a), JsonEvents.ArrayEnd(b, c)];
    EmptyArrayWalks(n, a, b, c);
    EmptyArrayExpected(indent, levels, s, a, b, c);
    var final := EchoAllWrites(indent, levels, n, s, evs);
  }

  lemma EmptyArrayWalks(n: JsonEvents.Nesting, a: nat, b: nat, c: nat)
    requires JsonEvents.ExpectsValue(n)
    ensures JsonEvents.Walk(n, [JsonEvents.ArrayStart(a), JsonEvents.ArrayEnd(b, c)]).Some?
  {
    var evs := [JsonEvents.ArrayStart(a), JsonEvents.ArrayEnd(b, c)];
    var rest := evs[1..];
    assert rest == [JsonEvents.ArrayEnd(b, c)] && rest[1..] == [];
    var m := JsonEvents.Accept(n, evs[0]).value;
    assert m.open == n.open + [JsonEvents.InArray];
    var m2 := JsonEvents.Accept(m, rest[0]).value;
    assert JsonEvents.Walk(m, rest) == JsonEvents.Walk(m2, rest[1..]) == Some(m2);
    assert JsonEvents.Walk(n, evs) == JsonEvents.Walk(m, rest);
  }

  lemma EmptyArrayExpected(indent: seq<byte>, levels: seq<Level>, s: seq<byte>, a: nat, b: nat, c: nat)
    ensures ExpectedAll(indent, levels, s, [JsonEvents.ArrayStart(a), JsonEvents.ArrayEnd(b, c)])
         == (if Later(levels, JsonEvents.ArrayStart(a)) then [COMMA] + Line(indent, |levels|) else [])
            + [LBRACKET] + Line(indent, |levels| + 1) + (Line(indent, |levels|) + [RBRACKET])
  {
    var evs := [JsonEvents.ArrayStart(a), JsonEvents.ArrayEnd(b, c)];
    var rest := evs[1..];
    assert rest == [JsonEvents.ArrayEnd(b, c)] && rest[1..] == [];
    var inner := levels + [ArrayLevel(0)];
    assert LevelsAfter(levels, evs[0]) == inner;
    var close := Expected(indent, inner, s, rest[0]);
    assert close == Line(indent, |levels|) + [RBRACKET];
    assert ExpectedAll(indent, inner, s, rest) == close + [] == close;
    assert ExpectedAll(indent, levels, s, evs) == Expected(indent, levels, s, evs[0]) + close;
  }
}
