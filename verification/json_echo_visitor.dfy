/** The echo pretty-printer of include/flumps/detail/json_echo_visitor_impl.h.

    It writes every event straight back out: one line per element and per key,
    indented once per open collection. A stack holds one state per open
    collection (plus the root entry) recording whether its first element or key
    has been written, which decides where a separating comma goes.

    The output iterator is modelled as the sequence of everything written so
    far, so writing a byte appends it. */
module JsonEchoVisitor {
  import opened Bytes
  import opened Exception
  import JsonEvents

  /** `state`: one entry of the stack. */
  datatype State = Root | StartArray | InArray | StartObject | FirstKeySeen | InObject | SubsequentKey

  /** `n` copies of the indent string. */
  function Indents(indent: seq<byte>, n: nat): seq<byte> {
    if n == 0 then [] else Indents(indent, n - 1) + indent
  }

  /** `output_new_line` with a stack of `depth` entries: a line feed and then
      one indent per entry beyond the first. */
  function NewLine(indent: seq<byte>, depth: nat): seq<byte> {
    [LF] + Indents(indent, IndentCount(depth))
  }

  /** How many indents follow a line feed with a stack of `depth` entries. */
  function IndentCount(depth: nat): nat {
    if depth <= 1 then 0 else depth - 1
  }

  /** The state a collection moves to once one of its values is complete. */
  function Settled(st: State): State {
    match st
    case StartArray => InArray
    case FirstKeySeen => InObject
    case SubsequentKey => InObject
    case _ => st
  }

  /** The three `set_back` lines run after a value completes. */
  function Settle(stack: seq<State>): seq<State>
    requires stack != []
  {
    JsonEvents.DropLast(stack) + [Settled(JsonEvents.Last(stack))]
  }

  // ---------------------------------------------------------------------------
  // What each handler writes
  // ---------------------------------------------------------------------------

  /** What a collection start writes after any separator: its bracket and a
      new line one level deeper than the stack it was given. */
  function StartText(indent: seq<byte>, depth: nat, bracket: byte): seq<byte> {
    [bracket] + NewLine(indent, depth + 1)
  }

  /** What a key writes after any separator: `"key": `. */
  function KeyText(key: seq<byte>): seq<byte> {
    [QUOTE] + key + [QUOTE, COLON, SPACE]
  }

  /** What a collection end writes: a new line at the depth left after the pop
      and then the bracket. */
  function EndText(indent: seq<byte>, depth: nat, bracket: byte): seq<byte> {
    NewLine(indent, depth) + [bracket]
  }

  /** What a primitive writes after any separator: its text, re-wrapped in
      quotes when it is a string. */
  function ValueText(kind: JsonEvents.ValueType, text: seq<byte>): seq<byte> {
    if kind == JsonEvents.String then [QUOTE] + text + [QUOTE] else text
  }

  /** The comma and new line written before an element or key. */
  function Separator(indent: seq<byte>, depth: nat, separate: bool): seq<byte> {
    if separate then [COMMA] + NewLine(indent, depth) else []
  }

  lemma AppendAssoc(a: seq<byte>, b: seq<byte>, c: seq<byte>)
    ensures a + (b + c) == a + b + c
  {
  }

  /** A handler's effect: the new stack and the bytes it writes. */
  datatype Printed = Printed(stack: seq<State>, text: seq<byte>)

  /** `on_object_start` (`entry` is `StartObject`, `bracket` '{') and
      `on_array_start` (`StartArray`, '['): a separator when the innermost
      collection already has a member, then the bracket, one level deeper. */
  function StartPrinted(indent: seq<byte>, stack: seq<State>, entry: State, bracket: byte): Printed
    requires stack != []
  {
    var separate := JsonEvents.Last(stack) == InArray || JsonEvents.Last(stack) == InObject;
    Printed(stack + [entry], Separator(indent, |stack|, separate) + StartText(indent, |stack|, bracket))
  }

  /** `on_object_key`: the first key of an object marks it `FirstKeySeen`, a
      later one (after a value, `InObject`) writes a separator and marks it
      `SubsequentKey`. */
  function KeyPrinted(indent: seq<byte>, stack: seq<State>, key: seq<byte>): Printed
    requires stack != []
  {
    var later := JsonEvents.Last(stack) == InObject;
    Printed(JsonEvents.DropLast(stack) + [if later then SubsequentKey else FirstKeySeen],
            Separator(indent, |stack|, later) + KeyText(key))
  }

  /** `on_object_end` and `on_array_end`: pop, write a new line and the
      bracket, and settle the enclosing collection. */
  function EndPrinted(indent: seq<byte>, stack: seq<State>, bracket: byte): Printed
    requires |stack| >= 2
  {
    var popped := JsonEvents.DropLast(stack);
    Printed(Settle(popped), EndText(indent, |popped|, bracket))
  }

  /** `on_primitive_value`: a separator after an earlier array element, the
      value, and the enclosing collection settled. */
  function PrimitivePrinted(indent: seq<byte>, stack: seq<State>, kind: JsonEvents.ValueType, text: seq<byte>): Printed
    requires stack != []
  {
    Printed(Settle(stack), Separator(indent, |stack|, JsonEvents.Last(stack) == InArray) + ValueText(kind, text))
  }

  /** One event of the input `s` handed to the printer; `None` for an end with
      no collection open, where popping the stack leaves nothing to read. */
  function Echo(indent: seq<byte>, stack: seq<State>, s: seq<byte>, e: JsonEvents.Event): (r: Option<Printed>)
    requires stack != []
    ensures r.Some? ==> r.value.stack != []
    ensures r.None? <==> (e.ObjectEnd? || e.ArrayEnd?) && |stack| < 2
  {
    match e
    case ObjectStart(_) => Some(StartPrinted(indent, stack, StartObject, LBRACE))
    case ArrayStart(_) => Some(StartPrinted(indent, stack, StartArray, LBRACKET))
    case ObjectKey(start, length) => Some(KeyPrinted(indent, stack, JsonEvents.Span(s, start, length)))
    case PrimitiveValue(kind, start, length) => Some(PrimitivePrinted(indent, stack, kind, JsonEvents.Span(s, start, length)))
    case ObjectEnd(_, _) => if |stack| < 2 then None else Some(EndPrinted(indent, stack, RBRACE))
    case ArrayEnd(_, _) => if |stack| < 2 then None else Some(EndPrinted(indent, stack, RBRACKET))
  }

  /** A sequence of events handed over one by one: the last stack and all the
      bytes written, in order. */
  function EchoAll(indent: seq<byte>, stack: seq<State>, s: seq<byte>, evs: seq<JsonEvents.Event>): (r: Option<Printed>)
    requires stack != []
    ensures r.Some? ==> r.value.stack != []
    decreases |evs|
  {
    if evs == [] then Some(Printed(stack, []))
    else match Echo(indent, stack, s, evs[0])
      case None => None
      case Some(p) =>
        match EchoAll(indent, p.stack, s, evs[1..])
        case None => None
        case Some(q) => Some(Printed(q.stack, p.text + q.text))
  }

  // ---------------------------------------------------------------------------
  // The visitor
  // ---------------------------------------------------------------------------

  /** `JsonEchoVisitorImpl`: `indent_`, everything written through `out_`,
      and `stack`. The only constructor sets `pp_`, so pretty-printing is
      always on and its branches are always taken. */
  class JsonEchoVisitorImpl {
    const indent: seq<byte>
    var out: seq<byte>
    var stack: seq<State>

    /** The stack always has an entry to read. */
    ghost predicate Valid()
      reads this
    {
      stack != []
    }

    /** The stack holds the root entry alone. */
    constructor(indent: seq<byte>)
      ensures Valid()
      ensures this.indent == indent
      ensures out == [] && stack == [Root]
    {
      this.indent := indent;
      out := [];
      stack := [Root];
    }

    method OutputChar(b: byte)
      modifies this`out
      ensures out == old(out) + [b]
    {
      out := out + [b];
    }

    method OutputString(t: seq<byte>)
      modifies this`out
      ensures out == old(out) + t
    {
      out := out + t;
    }

    /** Writes a line feed and then the indent once for each stack entry after
        the first, counting the entries down. */
    method OutputNewLine()
      modifies this`out
      ensures out == old(out) + NewLine(indent, |stack|)
    {
      OutputChar(LF);
      var i: nat := |stack|;
      while i > 1
        invariant i <= |stack| && IndentCount(i) <= IndentCount(|stack|)
        invariant out == old(out) + [LF] + Indents(indent, IndentCount(|stack|) - IndentCount(i))
      {
        OutputString(indent);
        i := i - 1;
      }
    }

    function IsBack(st: State): bool
      reads this
      requires Valid()
    {
      JsonEvents.Last(stack) == st
    }

    method StackPush(st: State)
      modifies this`stack
      ensures stack == old(stack) + [st]
    {
      stack := stack + [st];
    }

    method SetBack(st: State)
      modifies this`stack
      requires Valid()
      ensures stack == JsonEvents.DropLast(old(stack)) + [st]
    {
      stack := JsonEvents.DropLast(stack) + [st];
    }

    /** The three `set_back` lines that follow a completed value. */
    method SettleBack()
      modifies this`stack
      requires Valid()
      ensures stack == Settle(old(stack))
    {
      if IsBack(StartArray) { SetBack(InArray); }
      if IsBack(FirstKeySeen) { SetBack(InObject); }
      if IsBack(SubsequentKey) { SetBack(InObject); }
    }

    /** The body shared by `on_object_start` and `on_array_start`. */
    method DoStart(entry: State, bracket: byte)
      modifies this`out, this`stack
      requires Valid()
      ensures Valid()
      ensures out == old(out) + StartPrinted(indent, old(stack), entry, bracket).text
      ensures stack == StartPrinted(indent, old(stack), entry, bracket).stack
    {
      ghost var sep := Separator(indent, |stack|, IsBack(InArray) || IsBack(InObject));
      if IsBack(InArray) {
        OutputChar(COMMA);
        OutputNewLine();
      } else if IsBack(InObject) {
        OutputChar(COMMA);
        OutputNewLine();
      }
      assert out == old(out) + sep;
      ghost var separated := out;
      StackPush(entry);
      OutputChar(bracket);
      OutputNewLine();
      ghost var text := StartText(indent, |old(stack)|, bracket);
      assert out == separated + text;
      AppendAssoc(old(out), sep, text);
    }

    method OnObjectStart()
      modifies this`out, this`stack
      requires Valid()
      ensures Valid()
      ensures out == old(out) + StartPrinted(indent, old(stack), StartObject, LBRACE).text
      ensures stack == StartPrinted(indent, old(stack), StartObject, LBRACE).stack
    {
      DoStart(StartObject, LBRACE);
    }

    method OnArrayStart()
      modifies this`out, this`stack
      requires Valid()
      ensures Valid()
      ensures out == old(out) + StartPrinted(indent, old(stack), StartArray, LBRACKET).text
      ensures stack == StartPrinted(indent, old(stack), StartArray, LBRACKET).stack
    {
      DoStart(StartArray, LBRACKET);
    }

    /** `on_object_key`, given the key's bytes. */
    method OnObjectKey(key: seq<byte>)
      modifies this`out, this`stack
      requires Valid()
      ensures Valid()
      ensures out == old(out) + KeyPrinted(indent, old(stack), key).text
      ensures stack == KeyPrinted(indent, old(stack), key).stack
    {
      if IsBack(InObject) {
        SetBack(SubsequentKey);
        OutputChar(COMMA);
        OutputNewLine();
      } else {
        SetBack(FirstKeySeen);
      }
      OutputChar(QUOTE);
      OutputString(key);
      OutputChar(QUOTE);
      OutputChar(COLON);
      OutputChar(SPACE);
    }

    /** The body shared by `on_object_end` and `on_array_end`. An end needs a
        collection open: with the root entry alone, popping it leaves nothing
        for the following reads. */
    method DoEnd(bracket: byte)
      modifies this`out, this`stack
      requires |stack| >= 2
      ensures Valid()
      ensures out == old(out) + EndPrinted(indent, old(stack), bracket).text
      ensures stack == EndPrinted(indent, old(stack), bracket).stack
    {
      stack := JsonEvents.DropLast(stack);
      OutputNewLine();
      OutputChar(bracket);
      SettleBack();
    }

    method OnObjectEnd()
      modifies this`out, this`stack
      requires |stack| >= 2
      ensures Valid()
      ensures out == old(out) + EndPrinted(indent, old(stack), RBRACE).text
      ensures stack == EndPrinted(indent, old(stack), RBRACE).stack
    {
      DoEnd(RBRACE);
    }

    method OnArrayEnd()
      modifies this`out, this`stack
      requires |stack| >= 2
      ensures Valid()
      ensures out == old(out) + EndPrinted(indent, old(stack), RBRACKET).text
      ensures stack == EndPrinted(indent, old(stack), RBRACKET).stack
    {
      DoEnd(RBRACKET);
    }

    /** `on_primitive_value`, given the value's bytes. */
    method OnPrimitiveValue(kind: JsonEvents.ValueType, text: seq<byte>)
      modifies this`out, this`stack
      requires Valid()
      ensures Valid()
      ensures out == old(out) + PrimitivePrinted(indent, old(stack), kind, text).text
      ensures stack == PrimitivePrinted(indent, old(stack), kind, text).stack
    {
      ghost var before := stack;
      ghost var sep := Separator(indent, |stack|, IsBack(InArray));
      if IsBack(InArray) {
        OutputChar(COMMA);
        OutputNewLine();
      }
      assert out == old(out) + sep;
      ghost var separated := out;
      ghost var quote := if kind == JsonEvents.String then [QUOTE] else [];
      if kind == JsonEvents.String { OutputChar(QUOTE); }
      assert out == separated + quote;
      OutputString(text);
      if kind == JsonEvents.String { OutputChar(QUOTE); }
      assert out == separated + quote + text + quote;
      ghost var value := ValueText(kind, text);
      assert quote + text + quote == value;
      assert out == separated + value by {
        AppendAssoc(separated, quote + text, quote);
        AppendAssoc(separated, quote, text);
      }
      AppendAssoc(old(out), sep, value);
      SettleBack();
      assert stack == Settle(before);
    }
  }
}
