/** `JsonParserImpl` of include/flumps/detail/json_parser_impl.h: a JSON parser
    that does not recurse. Each element being read has a frame on `state`
    holding four sub-state enums and the offset of its '{' or '['; the parser
    pushes a frame to read a member or array element and pops it when the
    element is complete, and reports what it reads to its visitor, modelled
    here as the log `events`. Input positions are offsets into `s`.

    Every step is proved against JsonGrammar's recursive-descent reference:
    `Resume(s, L, p, stack)` is what the reference still has to report and
    where it ends, given the parser is at `p` with `stack`, and each method
    states that what it reported followed by the `Resume` of its new state is
    the `Resume` of its old one. */
module JsonParser {
  import opened Bytes
  import opened Exception
  import opened Utf8Codec
  import opened HexDigits
  import opened JsonEvents
  import opened JsonGrammar

  datatype ElementState = ElementInitial | ElementParseValue
  datatype ValueState = ValueInitial | ValueParseArray | ValueParseObject
  datatype ArrayState = ArrayInitial | ElementRead | EndArray
  datatype ObjectState = ObjectInitial | MemberRead | ObjectRead

  /** `JsonParserImpl::State`; `start` is the offset of the collection's
      opening bracket (0 until it is set, for the null pointer). */
  datatype Frame = Frame(
    parseElement: ElementState,
    parseValue: ValueState,
    parseArray: ArrayState,
    parseObject: ObjectState,
    start: nat)

  /** A default-constructed `State`, as `inc_depth` pushes it. */
  const FRESH_FRAME := Frame(ElementInitial, ValueInitial, ArrayInitial, ObjectInitial, 0)

  /** A frame whose element is waiting for a child element: an object after a
      member key, or an array after its '[' or a ','. */
  predicate Suspended(f: Frame) {
    f.parseElement == ElementParseValue
    && ((f.parseValue == ValueParseObject && f.parseObject == MemberRead)
        || (f.parseValue == ValueParseArray && f.parseArray == ElementRead))
  }

  /** A suspended frame whose collection opened before `p`. */
  predicate Parked(f: Frame, p: nat) {
    Suspended(f) && f.start < p
  }

  predicate AllParked(frames: seq<Frame>, p: nat) {
    forall i :: 0 <= i < |frames| ==> Parked(frames[i], p)
  }

  /** The stacks `parse_json` calls `parse_element` with: every frame but the
      top is suspended, and the top is fresh or suspended. */
  predicate StackReady(stack: seq<Frame>, p: nat) {
    stack != [] && AllParked(stack[..|stack| - 1], p)
    && (stack[|stack| - 1] == FRESH_FRAME || Parked(stack[|stack| - 1], p))
  }

  // ---------------------------------------------------------------------------
  // What the stack still has to do
  // ---------------------------------------------------------------------------

  /** What the top frame `f` (at depth `d`) still has to read from `p` in the
      reference grammar, up to but not including the whitespace after its
      value. */
  function TopRun(s: seq<byte>, L: nat, f: Frame, p: nat, d: nat): (r: Run)
    requires p <= |s|
    ensures p <= r.pos <= |s|
  {
    if f.parseElement == ElementInitial then Value(s, L, SkipWs(s, p), d)
    else match f.parseValue
      case ValueInitial => Value(s, L, p, d)
      case ValueParseObject =>
        (match f.parseObject
         case ObjectInitial => if p < |s| then ObjectValue(s, L, p, d) else Run([], p, false)
         case MemberRead => if f.start < p then AfterMember(s, L, p, d, f.start) else Run([], p, false)
         case ObjectRead =>
           if f.start <= p < |s| then Run([ObjectEnd(f.start, p + 1 - f.start)], p + 1, true)
           else Run([], p, false))
      case ValueParseArray =>
        (match f.parseArray
         case ArrayInitial => if p < |s| then ArrayValue(s, L, p, d) else Run([], p, false)
         case ElementRead => if f.start < p then AfterElement(s, L, p, d, f.start) else Run([], p, false)
         case EndArray =>
           if f.start <= p < |s| then Run([ArrayEnd(f.start, p + 1 - f.start)], p + 1, true)
           else Run([], p, false))
  }

  /** What remains from `p` with `stack`: the top frame's run, the whitespace
      after its value, then the frames below. With no frame left the input must
      be used up ("extra data" otherwise). */
  function Resume(s: seq<byte>, L: nat, p: nat, stack: seq<Frame>): (r: Run)
    requires p <= |s|
    ensures p <= r.pos <= |s|
    decreases |stack|, 1
  {
    if stack == [] then Run([], p, p == |s|)
    else AndThen(s, L, TopRun(s, L, stack[|stack| - 1], p, |stack|), stack[..|stack| - 1])
  }

  /** A top frame's run `t` followed by whitespace and the frames `below`. */
  function AndThen(s: seq<byte>, L: nat, t: Run, below: seq<Frame>): (r: Run)
    requires t.pos <= |s|
    ensures t.pos <= r.pos <= |s|
    decreases |below|, 2
  {
    if !t.ok then t else Prefix(t.events, Resume(s, L, SkipWs(s, t.pos), below))
  }

  /** How a step of the parser ended: by throwing at an offset, or by returning
      `call_again` with the position reached. */
  datatype Outcome = Thrown(offset: nat) | Returned(callAgain: bool, pos: nat)

  /** What remains after a step: nothing after a throw; the new stack from the
      new position when the step asks to be called again; and when it returns
      false, the whitespace after its value and then the frames below its own. */
  function Continue(s: seq<byte>, L: nat, o: Outcome, after: seq<Frame>): Run
    requires o.Returned? ==> o.pos <= |s| && (!o.callAgain ==> after != [])
  {
    match o
    case Thrown(offset) => Run([], offset, false)
    case Returned(callAgain, q) =>
      if callAgain then Resume(s, L, q, after)
      else Resume(s, L, SkipWs(s, q), after[..|after| - 1])
  }

  /** The stack after a step that returned: the position moved forward; a step
      asking to be called again pushed exactly one fresh frame that fits the
      depth limit; any other step kept the frames below its own. */
  ghost predicate Progressed(s: seq<byte>, L: nat, before: seq<Frame>, after: seq<Frame>, p: nat, o: Outcome)
    requires o.Returned?
  {
    p < o.pos <= |s| && before != []
    && if o.callAgain then
         |after| == |before| + 1 && StackReady(after, o.pos) && (L > 0 ==> |after| <= L)
       else
         |after| == |before| && after[..|after| - 1] == before[..|before| - 1]
  }

  /** Stacks `parse_value` is called with: `parse_element` has moved on from
      whitespace, and the top is either about to read a value or suspended. */
  predicate ValueReady(stack: seq<Frame>, p: nat) {
    stack != [] && AllParked(stack[..|stack| - 1], p)
    && (stack[|stack| - 1] == FRESH_FRAME.(parseElement := ElementParseValue)
        || Parked(stack[|stack| - 1], p))
  }

  /** Stacks `parse_object` is called with: its '{' at `p`, or a member read. */
  predicate ObjectReady(s: seq<byte>, stack: seq<Frame>, p: nat) {
    p <= |s| && stack != [] && AllParked(stack[..|stack| - 1], p)
    && var f := stack[|stack| - 1];
       f.parseElement == ElementParseValue && f.parseValue == ValueParseObject
       && ((f.parseObject == ObjectInitial && p < |s| && s[p] == LBRACE)
           || (f.parseObject == MemberRead && f.start < p))
  }

  /** Stacks `parse_array` is called with: its '[' at `p`, or an element read. */
  predicate ArrayReady(s: seq<byte>, stack: seq<Frame>, p: nat) {
    p <= |s| && stack != [] && AllParked(stack[..|stack| - 1], p)
    && var f := stack[|stack| - 1];
       f.parseElement == ElementParseValue && f.parseValue == ValueParseArray
       && ((f.parseArray == ArrayInitial && p < |s| && s[p] == LBRACKET)
           || (f.parseArray == ElementRead && f.start < p))
  }

  /** The outcome `parse_json` returns or throws. */
  datatype ParseOutcome = Complete(value: bool) | Failed(error: DecodeError, offset: nat)

  // ---------------------------------------------------------------------------
  // Lemmas linking the stack to the reference
  // ---------------------------------------------------------------------------

  /** Reporting `a` and then `b` before a run is reporting `a + b`. */
  lemma PrefixPrefix(a: seq<Event>, b: seq<Event>, r: Run)
    ensures Prefix(a, Prefix(b, r)) == Prefix(a + b, r)
  {
    assert a + (b + r.events) == (a + b) + r.events;
  }

  /** An object whose first member follows its '{': the '{' event, then the
      members' run. */
  lemma FirstMemberRun(s: seq<byte>, L: nat, p: nat, q: nat, below: seq<Frame>, more: seq<Event>, rest: Run)
    requires p < |s| && q == SkipWs(s, p + 1) && !(q < |s| && s[q] == RBRACE)
    requires AndThen(s, L, Members(s, L, q, |below| + 1, p), below) == Prefix(more, rest)
    ensures AndThen(s, L, ObjectValue(s, L, p, |below| + 1), below) == Prefix([ObjectStart(p)] + more, rest)
  {
    AndThenPrefix(s, L, [ObjectStart(p)], Members(s, L, q, |below| + 1, p), below);
    PrefixPrefix([ObjectStart(p)], more, rest);
  }

  /** An empty object: its '{' and '}' events, and the parser goes on after the
      '}' with the frames below. */
  lemma EmptyObjectRun(s: seq<byte>, L: nat, p: nat, q: nat, below: seq<Frame>, after: seq<Frame>)
    requires p < q < |s| && q == SkipWs(s, p + 1) && s[q] == RBRACE
    requires after != [] && after[..|after| - 1] == below
    ensures AndThen(s, L, ObjectValue(s, L, p, |below| + 1), below)
         == Prefix([ObjectStart(p), ObjectEnd(p, q + 1 - p)], Continue(s, L, Returned(false, q + 1), after))
  {
  }

  /** An array whose first element follows its '[': the '[' event, then the
      elements' run. */
  lemma FirstElementRun(s: seq<byte>, L: nat, p: nat, q: nat, below: seq<Frame>, rest: Run)
    requires p < |s| && q == SkipWs(s, p + 1) && !(q < |s| && s[q] == RBRACKET)
    requires AndThen(s, L, Elements(s, L, q, |below| + 1, p), below) == rest
    ensures AndThen(s, L, ArrayValue(s, L, p, |below| + 1), below) == Prefix([ArrayStart(p)], rest)
  {
    AndThenPrefix(s, L, [ArrayStart(p)], Elements(s, L, q, |below| + 1, p), below);
  }

  /** An empty array: its '[' and ']' events, and the parser goes on after the
      ']' with the frames below. */
  lemma EmptyArrayRun(s: seq<byte>, L: nat, p: nat, q: nat, below: seq<Frame>, after: seq<Frame>)
    requires p < q < |s| && q == SkipWs(s, p + 1) && s[q] == RBRACKET
    requires after != [] && after[..|after| - 1] == below
    ensures AndThen(s, L, ArrayValue(s, L, p, |below| + 1), below)
         == Prefix([ArrayStart(p), ArrayEnd(p, q + 1 - p)], Continue(s, L, Returned(false, q + 1), after))
  {
  }

  /** A fresh value frame at a '{' or '[': marking it as parsing an object or
      an array leaves what remains unchanged. */
  lemma ValueToCollection(s: seq<byte>, L: nat, p: nat, below: seq<Frame>, g: Frame)
    requires p < |s| && (s[p] == LBRACE || s[p] == LBRACKET)
    requires g == FRESH_FRAME.(parseElement := ElementParseValue,
                               parseValue := if s[p] == LBRACE then ValueParseObject else ValueParseArray)
    ensures Resume(s, L, p, below + [FRESH_FRAME.(parseElement := ElementParseValue)]) == Resume(s, L, p, below + [g])
  {
    assert (below + [g])[..|below|] == below;
    assert (below + [FRESH_FRAME.(parseElement := ElementParseValue)])[..|below|] == below;
  }

  /** A fresh value frame at a string, number or literal: the primitive's
      event, then whitespace and the frames below; or the primitive's error. */
  lemma PrimitiveStep(s: seq<byte>, L: nat, p: nat, below: seq<Frame>)
    requires p < |s| && s[p] != LBRACE && s[p] != LBRACKET
    ensures var r := Primitive(s, p);
      Resume(s, L, p, below + [FRESH_FRAME.(parseElement := ElementParseValue)])
      == if r.ok then Prefix(r.events, Resume(s, L, SkipWs(s, r.pos), below)) else Run([], r.pos, false)
  {
    assert (below + [FRESH_FRAME.(parseElement := ElementParseValue)])[..|below|] == below;
  }

  /** The whole run, read `done` and then `emitted`, is read `done + emitted`. */
  lemma RunsCompose(whole: Run, done: seq<Event>, emitted: seq<Event>, before: Run, after: Run)
    requires whole == Prefix(done, before) && before == Prefix(emitted, after)
    ensures whole == Prefix(done + emitted, after)
  {
    PrefixPrefix(done, emitted, after);
  }

  lemma EventsAssoc(a: seq<Event>, b: seq<Event>, c: seq<Event>)
    ensures (a + b) + c == a + (b + c)
  {
  }

  lemma EventsAppend(a: seq<Event>, e: Event, b: seq<Event>)
    ensures (a + [e]) + b == a + ([e] + b)
  {
  }

  lemma AndThenPrefix(s: seq<byte>, L: nat, evs: seq<Event>, t: Run, below: seq<Frame>)
    requires t.pos <= |s|
    ensures AndThen(s, L, Prefix(evs, t), below) == Prefix(evs, AndThen(s, L, t, below))
  {
  }

  /** The whole text is the root frame's work. */
  lemma ReferenceIsResume(s: seq<byte>, L: nat)
    ensures ParseReference(s, L) == Resume(s, L, 0, [FRESH_FRAME])
  {
    assert [FRESH_FRAME][..0] == [];
  }

  /** At the end of the input every ready stack is "truncated". */
  lemma ResumeAtEnd(s: seq<byte>, L: nat, stack: seq<Frame>)
    requires StackReady(stack, |s|)
    ensures Resume(s, L, |s|, stack) == Run([], |s|, false)
  {
  }

  /** The top frame's run, then the frames below it. */
  lemma ResumeTop(s: seq<byte>, L: nat, p: nat, stack: seq<Frame>)
    requires p <= |s| && stack != []
    ensures Resume(s, L, p, stack)
         == AndThen(s, L, TopRun(s, L, stack[|stack| - 1], p, |stack|), stack[..|stack| - 1])
  {
  }

  /** The stack just after a push: the new frame's element first. */
  lemma ResumePushed(s: seq<byte>, L: nat, x: nat, below: seq<Frame>, f: Frame)
    requires x <= |s|
    ensures Resume(s, L, x, below + [f] + [FRESH_FRAME])
         == AndThen(s, L, Value(s, L, SkipWs(s, x), |below| + 2), below + [f])
  {
    var stack := below + [f] + [FRESH_FRAME];
    assert stack[..|stack| - 1] == below + [f];
  }

  /** A suspended object frame resumes with what follows a member. */
  lemma ResumeMemberRead(s: seq<byte>, L: nat, x: nat, below: seq<Frame>, f: Frame)
    requires x <= |s| && Parked(f, x) && f.parseValue == ValueParseObject
    ensures Resume(s, L, x, below + [f])
         == AndThen(s, L, AfterMember(s, L, x, |below| + 1, f.start), below)
  {
    assert (below + [f])[..|below|] == below;
  }

  /** A suspended array frame resumes with what follows an element. */
  lemma ResumeElementRead(s: seq<byte>, L: nat, x: nat, below: seq<Frame>, f: Frame)
    requires x <= |s| && Parked(f, x) && f.parseValue == ValueParseArray
    ensures Resume(s, L, x, below + [f])
         == AndThen(s, L, AfterElement(s, L, x, |below| + 1, f.start), below)
  {
    assert (below + [f])[..|below|] == below;
  }

  /** The member's element, once its frame is pushed, is the rest of the
      object: the element's own run, then the object frame resumed. */
  lemma MemberElementPushed(s: seq<byte>, L: nat, x: nat, start: nat, below: seq<Frame>, f: Frame)
    requires start < x <= |s|
    requires Parked(f, x) && f.parseValue == ValueParseObject && f.start == start
    ensures Resume(s, L, x, below + [f] + [FRESH_FRAME])
         == AndThen(s, L, Element(s, L, x, |below| + 2), below + [f])
  {
    var v := Value(s, L, SkipWs(s, x), |below| + 2);
    ResumePushed(s, L, x, below, f);
    if v.ok {
      assert Element(s, L, x, |below| + 2) == Run(v.events, SkipWs(s, v.pos), true);
    }
  }

  /** After the member's element the object frame resumes with what follows a
      member. */
  lemma MemberElementThen(s: seq<byte>, L: nat, x: nat, start: nat, below: seq<Frame>, f: Frame)
    requires start < x <= |s|
    requires Parked(f, x) && f.parseValue == ValueParseObject && f.start == start
    ensures var e := Element(s, L, x, |below| + 2);
      AndThen(s, L, e, below + [f])
      == if e.ok then Prefix(e.events, AndThen(s, L, AfterMember(s, L, e.pos, |below| + 1, start), below)) else e
  {
    var e := Element(s, L, x, |below| + 2);
    if e.ok {
      assert SkipWs(s, e.pos) == e.pos;
      ResumeMemberRead(s, L, e.pos, below, f);
    }
  }

  /** The rest of a member after its key: the key's events, then the member's
      element followed by the suspended object frame. */
  lemma MemberValueThen(s: seq<byte>, L: nat, k: Run, start: nat, below: seq<Frame>, f: Frame)
    requires k.ok && start < k.pos <= |s| && !(L > 0 && |below| + 2 > L)
    requires Parked(f, k.pos) && f.parseValue == ValueParseObject && f.start == start
    ensures AndThen(s, L, MemberValue(s, L, k, |below| + 1, start), below)
         == Prefix(k.events, AndThen(s, L, Element(s, L, k.pos, |below| + 2), below + [f]))
  {
    var e := Element(s, L, k.pos, |below| + 2);
    MemberElementThen(s, L, k.pos, start, below, f);
    if e.ok {
      var a := AfterMember(s, L, e.pos, |below| + 1, start);
      AndThenPrefix(s, L, k.events + e.events, a, below);
      PrefixPrefix(k.events, e.events, AndThen(s, L, a, below));
    }
  }

  /** A member key read with room for the member's frame: the rest of the
      object is the new member frame's element followed by the object frame,
      suspended. */
  lemma MembersPush(s: seq<byte>, L: nat, k: Run, start: nat, below: seq<Frame>, f: Frame)
    requires k.ok && start < k.pos <= |s| && !(L > 0 && |below| + 2 > L)
    requires Parked(f, k.pos) && f.parseValue == ValueParseObject && f.start == start
    ensures AndThen(s, L, MemberValue(s, L, k, |below| + 1, start), below)
         == Prefix(k.events, Resume(s, L, k.pos, below + [f] + [FRESH_FRAME]))
  {
    MemberValueThen(s, L, k, start, below, f);
    MemberElementPushed(s, L, k.pos, start, below, f);
  }

  /** An element about to be read with room for its frame: the rest of the
      array is the element's frame followed by the array frame, suspended. */
  lemma ElementsPush(s: seq<byte>, L: nat, q: nat, start: nat, below: seq<Frame>, f: Frame)
    requires start < q <= |s|
    requires !(L > 0 && |below| + 2 > L)
    requires Parked(f, q) && f.parseValue == ValueParseArray && f.start == start
    ensures AndThen(s, L, Elements(s, L, q, |below| + 1, start), below)
         == Resume(s, L, q, below + [f] + [FRESH_FRAME])
  {
    var d := |below| + 1;
    var v := Value(s, L, SkipWs(s, q), d + 1);
    var e := Element(s, L, q, d + 1);
    ResumePushed(s, L, q, below, f);
    if v.ok {
      assert e == Run(v.events, SkipWs(s, v.pos), true);
      var a := AfterElement(s, L, e.pos, d, start);
      assert Elements(s, L, q, d, start) == Prefix(e.events, a);
      ResumeElementRead(s, L, e.pos, below, f);
      AndThenPrefix(s, L, e.events, a, below);
    } else {
      assert Elements(s, L, q, d, start) == v;
    }
  }

  class JsonParserImpl {
    /** `state_`, innermost frame last. */
    var state: seq<Frame>
    /** Every visitor call so far, in order. */
    var events: seq<Event>
    /** `depth_limit_`; 0 means no limit. */
    const depthLimit: nat

    constructor (depthLimit: nat)
      ensures this.depthLimit == depthLimit && state == [] && events == []
    {
      this.depthLimit := depthLimit;
      state := [];
      events := [];
    }

    /** `inc_depth`: pushes a fresh frame, then reports whether the stack still
        fits the limit (the source throws when it does not). */
    method IncDepth() returns (fits: bool)
      modifies this
      ensures state == old(state) + [FRESH_FRAME] && events == old(events)
      ensures fits <==> !(depthLimit > 0 && |state| > depthLimit)
    {
      state := state + [FRESH_FRAME];
      fits := !(depthLimit > 0 && |state| > depthLimit);
    }

    /** `dec_depth` */
    method DecDepth()
      requires state != []
      modifies this
      ensures state == old(state)[..|old(state)| - 1] && events == old(events)
    {
      state := state[..|state| - 1];
    }

    /** `chomp_whitespace` */
    method ChompWhitespace(s: seq<byte>, p: nat) returns (q: nat)
      requires p <= |s|
      ensures q == SkipWs(s, p)
    {
      q := p;
      while q != |s| && IsWhitespace(s[q])
        invariant p <= q <= |s|
        invariant SkipWs(s, p) == SkipWs(s, q)
        decreases |s| - q
      {
        q := q + 1;
      }
    }

    /** `parse_number` from the '-' or digit at `p`: the integer part here,
        the fraction and exponent parts in the two methods below. */
    method ParseNumber(s: seq<byte>, p: nat) returns (x: Lex)
      requires p < |s| && (s[p] == MINUS || IsDec(s[p]))
      ensures x == NumberLex(s, p)
    {
      var pos := p;
      if s[pos] == MINUS {
        pos := pos + 1;
        if pos == |s| { return LexError(pos); }
      }
      if !IsDec(s[pos]) { return LexError(pos); }
      if s[pos] == DIGIT_0 {
        pos := pos + 1;
      } else {
        pos := ChompDigits(s, pos + 1);
      }
      x := ParseFraction(s, pos);
    }

    /** The fraction part of `parse_number`, from the end `i` of the integer
        part. */
    method ParseFraction(s: seq<byte>, i: nat) returns (x: Lex)
      requires i <= |s|
      ensures x == FractionLex(s, i)
    {
      var pos := i;
      if pos == |s| { return Lexed(pos); }
      if s[pos] == DOT {
        pos := pos + 1;
        if pos == |s| { return LexError(pos); }
        if !IsDec(s[pos]) { return LexError(pos); }
        pos := ChompDigits(s, pos + 1);
      }
      x := ParseExponent(s, pos);
    }

    /** The exponent part of `parse_number`, from the end `f` of the fraction. */
    method ParseExponent(s: seq<byte>, f: nat) returns (x: Lex)
      requires f <= |s|
      ensures x == ExponentLex(s, f)
    {
      var pos := f;
      if pos == |s| { return Lexed(pos); }
      if s[pos] == LOWER_E || s[pos] == UPPER_E {
        pos := pos + 1;
        if pos == |s| { return LexError(pos); }
        if s[pos] == MINUS || s[pos] == PLUS { pos := pos + 1; }
        if pos == |s| { return LexError(pos); }
        if !IsDec(s[pos]) { return LexError(pos); }
        pos := ChompDigits(s, pos + 1);
      }
      return Lexed(pos);
    }

    /** The "chomp digits" loops of `parse_number`. */
    method ChompDigits(s: seq<byte>, p: nat) returns (q: nat)
      requires p <= |s|
      ensures q == DigitsEnd(s, p)
    {
      q := p;
      while q != |s| && IsDec(s[q])
        invariant p <= q <= |s|
        invariant DigitsEnd(s, p) == DigitsEnd(s, q)
        decreases |s| - q
      {
        q := q + 1;
      }
    }

    /** `parse_string` from the opening quote at `p`, with its own surrogate
        checker. */
    method ParseString(s: seq<byte>, p: nat) returns (x: Lex)
      requires p < |s| && s[p] == QUOTE
      ensures x == StringLex(s, p)
    {
      var pos := p + 1;
      var tracker := new Utf8SurrogateChecker();
      var lastCpWasHexSeq := false;
      while pos != |s| && s[pos] != QUOTE
        invariant p < pos <= |s|
        invariant StringLex(s, p) == StringScan(s, pos, tracker.State(), lastCpWasHexSeq)
        decreases |s| - pos
      {
        assert StringScan(s, pos, tracker.State(), lastCpWasHexSeq)
            == StringChar(s, pos, tracker.State(), lastCpWasHexSeq);
        if s[pos] != BACKSLASH {
          var stop, next := ReadCharacter(s, pos);
          if stop { return LexError(next); }
          pos := next;
        } else {
          var stop, next, hex := ReadEscape(s, pos, tracker);
          if stop { return LexError(next); }
          pos := next;
          if hex { lastCpWasHexSeq := true; }
        }
        if !lastCpWasHexSeq {
          var c := tracker.CheckCodePoint(0);
          if c.Err? { return LexError(pos); }
        }
      }
      var c := tracker.CheckCodePoint(0);
      if c.Err? { return LexError(pos); }
      if pos == |s| { return LexError(pos); }
      return Lexed(pos + 1);
    }

    /** One character of a string that is not an escape: a control byte is
        refused, anything else must decode as UTF-8. */
    method ReadCharacter(s: seq<byte>, q: nat) returns (stop: bool, next: nat)
      requires q < |s| && s[q] != QUOTE && s[q] != BACKSLASH
      ensures q <= next <= |s| && (!stop ==> q < next)
      ensures forall t, h ::
        RawChar(s, q, t, h) == if stop then LexError(next) else Ticked(s, next, t, h)
    {
      if s[q] < SPACE { return true, q; }
      var r;
      r, next := ChompUtf8Char(s, q);
      stop := r.Err?;
    }

    /** One escape sequence from its backslash at `q`. A `\u` escape goes
        through the surrogate checker (`hex` is then true); any other escape
        leaves it alone. */
    method ReadEscape(s: seq<byte>, q: nat, tracker: Utf8SurrogateChecker) returns (stop: bool, next: nat, hex: bool)
      requires q < |s| && s[q] == BACKSLASH
      modifies tracker
      ensures q < next <= |s|
      ensures forall h ::
        EscapeChar(s, q, old(tracker.State()), h)
        == if stop then LexError(next)
           else if hex then StringScan(s, next, tracker.State(), true)
           else Ticked(s, next, tracker.State(), h)
    {
      next := q + 1;
      hex := false;
      if next == |s| { return true, next, hex; }
      if !IsEscapeLetter(s[next]) { return true, next, hex; }
      if s[next] != LOWER_U { return false, next + 1, hex; }
      next := next + 1;
      var cp;
      cp, next := JsonHexSeqToCodePoint(s, next);
      if cp.Err? { return true, next, hex; }
      var c := tracker.CheckCodePoint(cp.value);
      if c.Err? { return true, next, hex; }
      stop, hex := false, true;
    }

    /** `parse_member_key`: reports the key without its quotes and stops after
        the colon. */
    method ParseMemberKey(s: seq<byte>, p: nat) returns (x: Lex, ghost emitted: seq<Event>)
      requires p <= |s|
      modifies this
      ensures state == old(state)
      ensures events == old(events) + emitted
      ensures emitted == MemberKey(s, p).events
      ensures x == if MemberKey(s, p).ok then Lexed(MemberKey(s, p).pos) else LexError(MemberKey(s, p).pos)
    {
      var q := ChompWhitespace(s, p);
      if q == |s| { return LexError(q), []; }
      if s[q] != QUOTE { return LexError(q), []; }
      var str := ParseString(s, q);
      if str.LexError? { return LexError(str.offset), []; }
      var key := ObjectKey(q + 1, str.end - q - 2);
      events := events + [key];
      emitted := [key];
      var a := ChompWhitespace(s, str.end);
      if a == |s| || s[a] != COLON { return LexError(a), emitted; }
      return Lexed(a + 1), emitted;
    }

    /** The `object_read` case of `parse_object`: steps over the '}' at `p` and
        reports the object's whole span. */
    method EndObject(s: seq<byte>, p: nat) returns (q: nat)
      requires state != [] && p < |s| && state[|state| - 1].start <= p
      modifies this
      ensures state == old(state) && q == p + 1
      ensures events == old(events) + [ObjectEnd(state[|state| - 1].start, q - state[|state| - 1].start)]
    {
      q := p + 1;
      var start := state[|state| - 1].start;
      events := events + [ObjectEnd(start, q - start)];
    }

    /** The `end_array` case of `parse_array`. */
    method EndArrayAt(s: seq<byte>, p: nat) returns (q: nat)
      requires state != [] && p < |s| && state[|state| - 1].start <= p
      modifies this
      ensures state == old(state) && q == p + 1
      ensures events == old(events) + [ArrayEnd(state[|state| - 1].start, q - state[|state| - 1].start)]
    {
      q := p + 1;
      var start := state[|state| - 1].start;
      events := events + [ArrayEnd(start, q - start)];
    }

    /** A member from `q`: `parse_member_key`, the object frame `top` set to
        `member_read`, and the member's frame pushed by `inc_depth`. The
        frames `below` wait at `q`. */
    method ReadMember(s: seq<byte>, q: nat, ghost below: seq<Frame>, ghost top: Frame) returns (o: Outcome, ghost emitted: seq<Event>)
      requires q <= |s| && state == below + [top] && AllParked(below, q)
      requires top.parseElement == ElementParseValue && top.parseValue == ValueParseObject && top.start < q
      modifies this
      ensures events == old(events) + emitted
      ensures o.Returned? ==> o.callAgain && q < o.pos <= |s|
      ensures o.Returned? ==> |state| == |below| + 2 && StackReady(state, o.pos) && state[..|below|] == below
      ensures o.Returned? ==> depthLimit > 0 ==> |state| <= depthLimit
      ensures AndThen(s, depthLimit, Members(s, depthLimit, q, |below| + 1, top.start), below)
           == Prefix(emitted, Continue(s, depthLimit, o, state))
    {
      ghost var key := MemberKey(s, q);
      var k;
      k, emitted := ParseMemberKey(s, q);
      if k.LexError? { return Thrown(k.offset), emitted; }
      var f := state[|state| - 1].(parseObject := MemberRead);
      state := state[..|state| - 1] + [f];
      assert state == below + [f];
      var fits := IncDepth();
      if !fits { return Thrown(k.end), emitted; }
      MembersPush(s, depthLimit, key, top.start, below, f);
      assert state[..|below|] == below;
      return Returned(true, k.end), emitted;
    }

    /** An element from `q`: the array frame `top` set to `element_read` and
        the element's frame pushed by `inc_depth`. The frames `below` wait at
        `q`. */
    method ReadElement(s: seq<byte>, q: nat, ghost below: seq<Frame>, ghost top: Frame) returns (o: Outcome)
      requires q <= |s| && state == below + [top] && AllParked(below, q)
      requires top.parseElement == ElementParseValue && top.parseValue == ValueParseArray && top.start < q
      modifies this
      ensures events == old(events)
      ensures o.Returned? ==> o.callAgain && o.pos == q
      ensures o.Returned? ==> |state| == |below| + 2 && StackReady(state, o.pos) && state[..|below|] == below
      ensures o.Returned? ==> depthLimit > 0 ==> |state| <= depthLimit
      ensures AndThen(s, depthLimit, Elements(s, depthLimit, q, |below| + 1, top.start), below)
           == Continue(s, depthLimit, o, state)
    {
      var f := state[|state| - 1].(parseArray := ElementRead);
      state := state[..|state| - 1] + [f];
      assert state == below + [f];
      var fits := IncDepth();
      if !fits { return Thrown(q); }
      ElementsPush(s, depthLimit, q, top.start, below, f);
      assert state[..|below|] == below;
      return Returned(true, q);
    }

    /** `parse_object`. The source's do/while goes round a second time only to
        run the `object_read` case right after setting it; here that case is
        called directly. */
    method ParseObject(s: seq<byte>, p: nat) returns (o: Outcome, ghost emitted: seq<Event>)
      requires ObjectReady(s, state, p)
      modifies this
      ensures events == old(events) + emitted
      ensures o.Returned? ==> Progressed(s, depthLimit, old(state), state, p, o)
      ensures Resume(s, depthLimit, p, old(state)) == Prefix(emitted, Continue(s, depthLimit, o, state))
    {
      ResumeTop(s, depthLimit, p, state);
      if state[|state| - 1].parseObject == ObjectInitial {
        ghost var below, top := state[..|state| - 1], state[|state| - 1];
        assert state == below + [top];
        o, emitted := OpenObject(s, p, below, top);
      } else {
        o, emitted := ObjectMemberRead(s, p);
      }
    }

    /** The `initial` case of `parse_object`, at its '{'. */
    method OpenObject(s: seq<byte>, p: nat, ghost below: seq<Frame>, ghost initial: Frame) returns (o: Outcome, ghost emitted: seq<Event>)
      requires state == below + [initial] && ObjectReady(s, state, p) && initial.parseObject == ObjectInitial
      modifies this
      ensures events == old(events) + emitted
      ensures o.Returned? ==> Progressed(s, depthLimit, below + [initial], state, p, o)
      ensures AndThen(s, depthLimit, ObjectValue(s, depthLimit, p, |below| + 1), below)
           == Prefix(emitted, Continue(s, depthLimit, o, state))
    {
      var enclosing := state[..|state| - 1];
      var top := state[|state| - 1].(start := p);
      state := enclosing + [top];
      events := events + [ObjectStart(p)];
      var q := ChompWhitespace(s, p + 1);
      if q == |s| || s[q] != RBRACE {
        ghost var more;
        o, more := ReadMember(s, q, below, top);
        emitted := [ObjectStart(p)] + more;
        EventsAppend(old(events), ObjectStart(p), more);
        FirstMemberRun(s, depthLimit, p, q, below, more, Continue(s, depthLimit, o, state));
      } else {
        state := enclosing + [top.(parseObject := ObjectRead)];
        var r := EndObject(s, q);
        emitted := [ObjectStart(p), ObjectEnd(p, r - p)];
        o := Returned(false, r);
        assert state[..|state| - 1] == below;
        EmptyObjectRun(s, depthLimit, p, q, below, state);
      }
    }

    /** The `member_read` case of `parse_object`: a '}' or a ',' and the next
        member. */
    method ObjectMemberRead(s: seq<byte>, p: nat) returns (o: Outcome, ghost emitted: seq<Event>)
      requires ObjectReady(s, state, p) && state[|state| - 1].parseObject == MemberRead
      modifies this
      ensures events == old(events) + emitted
      ensures o.Returned? ==> Progressed(s, depthLimit, old(state), state, p, o)
      ensures AndThen(s, depthLimit, AfterMember(s, depthLimit, p, |old(state)|, old(state)[|old(state)| - 1].start), old(state)[..|old(state)| - 1])
           == Prefix(emitted, Continue(s, depthLimit, o, state))
    {
      var top := state[|state| - 1];
      var below := state[..|state| - 1];
      if p == |s| { return Thrown(p), []; }
      if s[p] == RBRACE {
        state := below + [top.(parseObject := ObjectRead)];
        var r := EndObject(s, p);
        emitted := [ObjectEnd(top.start, r - top.start)];
        o := Returned(false, r);
      } else if s[p] == COMMA {
        assert state == below + [top];
        o, emitted := ReadMember(s, p + 1, below, top);
      } else {
        o, emitted := Thrown(p), [];
      }
    }

    /** `parse_array`, with the `end_array` case called directly as in
        `ParseObject`. */
    method ParseArray(s: seq<byte>, p: nat) returns (o: Outcome, ghost emitted: seq<Event>)
      requires ArrayReady(s, state, p)
      modifies this
      ensures events == old(events) + emitted
      ensures o.Returned? ==> Progressed(s, depthLimit, old(state), state, p, o)
      ensures Resume(s, depthLimit, p, old(state)) == Prefix(emitted, Continue(s, depthLimit, o, state))
    {
      ResumeTop(s, depthLimit, p, state);
      if state[|state| - 1].parseArray == ArrayInitial {
        ghost var below, top := state[..|state| - 1], state[|state| - 1];
        assert state == below + [top];
        o, emitted := OpenArray(s, p, below, top);
      } else {
        o, emitted := ArrayElementRead(s, p);
      }
    }

    /** The `initial` case of `parse_array`, at its '['. */
    method OpenArray(s: seq<byte>, p: nat, ghost below: seq<Frame>, ghost initial: Frame) returns (o: Outcome, ghost emitted: seq<Event>)
      requires state == below + [initial] && ArrayReady(s, state, p) && initial.parseArray == ArrayInitial
      modifies this
      ensures events == old(events) + emitted
      ensures o.Returned? ==> Progressed(s, depthLimit, below + [initial], state, p, o)
      ensures AndThen(s, depthLimit, ArrayValue(s, depthLimit, p, |below| + 1), below)
           == Prefix(emitted, Continue(s, depthLimit, o, state))
    {
      var enclosing := state[..|state| - 1];
      var top := state[|state| - 1].(start := p);
      state := enclosing + [top];
      events := events + [ArrayStart(p)];
      var q := ChompWhitespace(s, p + 1);
      if q == |s| || s[q] != RBRACKET {
        o := ReadElement(s, q, below, top);
        emitted := [ArrayStart(p)];
        FirstElementRun(s, depthLimit, p, q, below, Continue(s, depthLimit, o, state));
      } else {
        state := enclosing + [top.(parseArray := EndArray)];
        var r := EndArrayAt(s, q);
        emitted := [ArrayStart(p), ArrayEnd(p, r - p)];
        o := Returned(false, r);
        EventsAppend(old(events), ArrayStart(p), [ArrayEnd(p, r - p)]);
        assert state[..|state| - 1] == below;
        EmptyArrayRun(s, depthLimit, p, q, below, state);
      }
    }

    /** The `element_read` case of `parse_array`: a ']' or a ',' and the next
        element. */
    method ArrayElementRead(s: seq<byte>, p: nat) returns (o: Outcome, ghost emitted: seq<Event>)
      requires ArrayReady(s, state, p) && state[|state| - 1].parseArray == ElementRead
      modifies this
      ensures events == old(events) + emitted
      ensures o.Returned? ==> Progressed(s, depthLimit, old(state), state, p, o)
      ensures AndThen(s, depthLimit, AfterElement(s, depthLimit, p, |old(state)|, old(state)[|old(state)| - 1].start), old(state)[..|old(state)| - 1])
           == Prefix(emitted, Continue(s, depthLimit, o, state))
    {
      var top := state[|state| - 1];
      var below := state[..|state| - 1];
      if p == |s| { return Thrown(p), []; }
      if s[p] == RBRACKET {
        state := below + [top.(parseArray := EndArray)];
        var r := EndArrayAt(s, p);
        emitted := [ArrayEnd(top.start, r - top.start)];
        o := Returned(false, r);
      } else if s[p] == COMMA {
        assert state == below + [top];
        o := ReadElement(s, p + 1, below, top);
        emitted := [];
      } else {
        o, emitted := Thrown(p), [];
      }
    }

    /** The string, number and literal cases of `parse_value`: the value's
        event, or the offset the source throws at. */
    method ParsePrimitive(s: seq<byte>, p: nat) returns (o: Outcome, ghost emitted: seq<Event>)
      requires p < |s| && s[p] != LBRACE && s[p] != LBRACKET
      modifies this
      ensures state == old(state) && events == old(events) + emitted
      ensures o.Returned? ==> !o.callAgain
      ensures Primitive(s, p) == match o
        case Returned(_, e) => Run(emitted, e, true)
        case Thrown(x) => Run(emitted, x, false)
    {
      if s[p] == QUOTE {
        var x := ParseString(s, p);
        if x.LexError? { return Thrown(x.offset), []; }
        var ev := PrimitiveValue(String, p + 1, x.end - p - 2);
        events := events + [ev];
        return Returned(false, x.end), [ev];
      } else if s[p] == MINUS || IsDec(s[p]) {
        var x := ParseNumber(s, p);
        if x.LexError? { return Thrown(x.offset), []; }
        var ev := PrimitiveValue(Number, p, x.end - p);
        events := events + [ev];
        return Returned(false, x.end), [ev];
      } else if LiteralAt(s, p, TRUE_BYTES) {
        var ev := PrimitiveValue(True, p, 4);
        events := events + [ev];
        return Returned(false, p + 4), [ev];
      } else if LiteralAt(s, p, NULL_BYTES) {
        var ev := PrimitiveValue(Null, p, 4);
        events := events + [ev];
        return Returned(false, p + 4), [ev];
      } else if LiteralAt(s, p, FALSE_BYTES) {
        var ev := PrimitiveValue(False, p, 5);
        events := events + [ev];
        return Returned(false, p + 5), [ev];
      } else {
        return Thrown(p), [];
      }
    }

    /** `parse_value`. Its do/while likewise only goes round again to hand a
        '{' or '[' to `parse_object` or `parse_array`, done here directly. */
    method ParseValue(s: seq<byte>, p: nat) returns (o: Outcome, ghost emitted: seq<Event>)
      requires p <= |s| && ValueReady(state, p)
      modifies this
      ensures events == old(events) + emitted
      ensures o.Returned? ==> Progressed(s, depthLimit, old(state), state, p, o)
      ensures Resume(s, depthLimit, p, old(state)) == Prefix(emitted, Continue(s, depthLimit, o, state))
    {
      var top := state[|state| - 1];
      var below := state[..|state| - 1];
      match top.parseValue
      case ValueInitial =>
        assert top == FRESH_FRAME.(parseElement := ElementParseValue) && state == below + [top];
        if p == |s| { return Thrown(p), []; }
        if s[p] == LBRACE {
          ValueToCollection(s, depthLimit, p, below, top.(parseValue := ValueParseObject));
          state := below + [top.(parseValue := ValueParseObject)];
          o, emitted := ParseObject(s, p);
        } else if s[p] == LBRACKET {
          ValueToCollection(s, depthLimit, p, below, top.(parseValue := ValueParseArray));
          state := below + [top.(parseValue := ValueParseArray)];
          o, emitted := ParseArray(s, p);
        } else {
          PrimitiveStep(s, depthLimit, p, below);
          o, emitted := ParsePrimitive(s, p);
        }
      case ValueParseObject =>
        o, emitted := ParseObject(s, p);
      case ValueParseArray =>
        o, emitted := ParseArray(s, p);
    }

    /** `parse_element`: whitespace, the value, and whitespace once the value
        is complete. */
    method ParseElement(s: seq<byte>, p: nat) returns (o: Outcome, ghost emitted: seq<Event>)
      requires p <= |s| && StackReady(state, p)
      modifies this
      ensures events == old(events) + emitted
      ensures o.Returned? ==> Progressed(s, depthLimit, old(state), state, p, o)
      ensures o.Thrown? ==> Resume(s, depthLimit, p, old(state)) == Run(emitted, o.offset, false)
      ensures o.Returned? ==>
        Resume(s, depthLimit, p, old(state))
          == Prefix(emitted, Resume(s, depthLimit, o.pos, if o.callAgain then state else state[..|state| - 1]))
    {
      var top := state[|state| - 1];
      var q := p;
      if top.parseElement == ElementInitial {
        q := ChompWhitespace(s, p);
        state := state[..|state| - 1] + [top.(parseElement := ElementParseValue)];
      }
      o, emitted := ParseValue(s, q);
      if o.Returned? && !o.callAgain {
        var r := ChompWhitespace(s, o.pos);
        o := Returned(false, r);
      }
    }

    /** One turn of `parse_json`'s loop: the top frame's element, and the
        frame popped once its value is complete. */
    method Step(s: seq<byte>, p: nat) returns (o: Outcome, ghost emitted: seq<Event>)
      requires p <= |s| && StackReady(state, p) && (depthLimit > 0 ==> |state| <= depthLimit)
      modifies this
      ensures events == old(events) + emitted
      ensures o.Thrown? ==> Resume(s, depthLimit, p, old(state)) == Run(emitted, o.offset, false)
      ensures o.Returned? ==>
        && p < o.pos <= |s|
        && (state != [] ==> StackReady(state, o.pos))
        && (depthLimit > 0 ==> |state| <= depthLimit)
        && Resume(s, depthLimit, p, old(state)) == Prefix(emitted, Resume(s, depthLimit, o.pos, state))
    {
      o, emitted := ParseElement(s, p);
      if o.Returned? && !o.callAgain {
        DecDepth();
      }
    }

    /** `parse_json`: frames are pushed and popped until the input is used up.
        The events reported and the outcome are exactly the reference's, and a
        normal return is always `true`. */
    method ParseJson(s: seq<byte>) returns (r: ParseOutcome)
      modifies this
      ensures events == old(events) + ParseReference(s, depthLimit).events
      ensures r.Complete? <==> ParseReference(s, depthLimit).ok
      ensures r.Complete? ==> r.value && state == []
      ensures r.Failed? ==> r.error == JsonParseError && r.offset == ParseReference(s, depthLimit).pos
    {
      var pos: nat := 0;
      state := [];
      var rootFits := IncDepth();
      ghost var done: seq<Event> := [];
      ReferenceIsResume(s, depthLimit);
      var first := true;
      while first || pos != |s|
        invariant pos <= |s|
        invariant events == old(events) + done
        invariant ParseReference(s, depthLimit) == Prefix(done, Resume(s, depthLimit, pos, state))
        invariant first ==> pos == 0 && state == [FRESH_FRAME]
        invariant state == [] ==> pos == |s| && !first
        invariant state != [] ==> StackReady(state, pos)
        invariant depthLimit > 0 ==> |state| <= depthLimit
        decreases |s| - pos + (if first then 1 else 0)
      {
        first := false;
        ghost var before := Resume(s, depthLimit, pos, state);
        var o, emitted := Step(s, pos);
        if o.Thrown? {
          EventsAssoc(old(events), done, emitted);
          done := done + emitted;
          return Failed(JsonParseError, o.offset);
        }
        RunsCompose(ParseReference(s, depthLimit), done, emitted, before, Resume(s, depthLimit, o.pos, state));
        EventsAssoc(old(events), done, emitted);
        done := done + emitted;
        pos := o.pos;
        if state == [] && pos != |s| {
          return Failed(JsonParseError, pos);
        }
      }
      if state != [] {
        ResumeAtEnd(s, depthLimit, state);
        return Failed(JsonParseError, pos);
      }
      var complete := pos == |s|;
      return Complete(complete);
    }
  }
}
