/** The parser's visitor interface as data: the value types of
    include/flumps/json_value_type.h and the six visitor calls, recorded in order
    with their spans as byte offsets into the input. */
module JsonEvents {
  import opened Bytes
  import opened Exception

  /** `JsonValueType` without the bitmask composites (`Bool`, `Primitive`, ...),
      which no core code uses. */
  datatype ValueType = Array | Object | True | False | Null | String | Number

  /** One visitor call. `start` is the offset of the span's first byte, `length`
      its size in bytes. */
  datatype Event =
    | ObjectStart(start: nat)
    | ObjectKey(start: nat, length: nat)
    | ObjectEnd(start: nat, length: nat)
    | ArrayStart(start: nat)
    | ArrayEnd(start: nat, length: nat)
    | PrimitiveValue(kind: ValueType, start: nat, length: nat)

  /** The bytes of an event's span. */
  function Span(s: seq<byte>, start: nat, length: nat): seq<byte> {
    if start + length <= |s| then s[start..start + length] else []
  }

  function Last<T>(s: seq<T>): T
    requires s != []
  {
    s[|s| - 1]
  }

  function DropLast<T>(s: seq<T>): seq<T>
    requires s != []
  {
    s[..|s| - 1]
  }

  predicate IsValueStart(e: Event) {
    e.ObjectStart? || e.ArrayStart? || e.PrimitiveValue?
  }

  // ---------------------------------------------------------------------------
  // The event protocol: nesting of starts, keys and ends
  // ---------------------------------------------------------------------------

  /** What an open collection or key is waiting for. */
  datatype Open = InObject | InArray | AtKey

  /** Where a consumer of events stands: the open collections and keys, innermost
      last, and whether the root value has been completed. */
  datatype Nesting = Nesting(open: seq<Open>, done: bool)

  const START := Nesting([], false)
  const FINISHED := Nesting([], true)

  /** A value may come next: the root value before it is complete, an array
      element, or the value of a key just read. */
  predicate ExpectsValue(n: Nesting) {
    if n.open == [] then !n.done else n.open[|n.open| - 1] != InObject
  }

  /** The nesting after a value completes: a pending key is closed with it, and
      at the outermost level the root is done. */
  function Completed(n: Nesting): (m: Nesting)
    ensures |m.open| <= |n.open|
  {
    if n.open == [] then FINISHED
    else if n.open[|n.open| - 1] == AtKey then Nesting(n.open[..|n.open| - 1], n.done)
    else n
  }

  /** One event against the protocol: starts and primitives need a place for a
      value, keys and ends need their own collection innermost. */
  function Accept(n: Nesting, e: Event): (r: Option<Nesting>)
    ensures r.Some? <==>
      (if IsValueStart(e) then ExpectsValue(n)
       else if e.ObjectKey? || e.ObjectEnd? then n.open != [] && n.open[|n.open| - 1] == InObject
       else n.open != [] && n.open[|n.open| - 1] == InArray)
  {
    match e
    case ObjectStart(_) =>
      if ExpectsValue(n) then Some(Nesting(n.open + [InObject], n.done)) else None
    case ArrayStart(_) =>
      if ExpectsValue(n) then Some(Nesting(n.open + [InArray], n.done)) else None
    case ObjectKey(_, _) =>
      if n.open != [] && n.open[|n.open| - 1] == InObject
      then Some(Nesting(n.open + [AtKey], n.done)) else None
    case PrimitiveValue(_, _, _) =>
      if ExpectsValue(n) then Some(Completed(n)) else None
    case ObjectEnd(_, _) =>
      if n.open != [] && n.open[|n.open| - 1] == InObject
      then Some(Completed(Nesting(n.open[..|n.open| - 1], n.done))) else None
    case ArrayEnd(_, _) =>
      if n.open != [] && n.open[|n.open| - 1] == InArray
      then Some(Completed(Nesting(n.open[..|n.open| - 1], n.done))) else None
  }

  /** A whole sequence of events against the protocol; `None` at the first
      event out of place. */
  function Walk(n: Nesting, evs: seq<Event>): Option<Nesting>
    decreases |evs|
  {
    if evs == [] then Some(n)
    else match Accept(n, evs[0])
      case None => None
      case Some(m) => Walk(m, evs[1..])
  }

  /** Walking two sequences one after the other. */
  lemma {:induction false} WalkAppend(n: Nesting, a: seq<Event>, b: seq<Event>)
    ensures Walk(n, a + b) == (if Walk(n, a).None? then None else Walk(Walk(n, a).value, b))
    decreases |a|
  {
    if a == [] {
      assert a + b == b;
    } else {
      assert (a + b)[0] == a[0];
      assert (a + b)[1..] == a[1..] + b;
      match Accept(n, a[0])
      case None =>
      case Some(m) => WalkAppend(m, a[1..], b);
    }
  }

  /** A sequence is the complete event stream of one root value. */
  predicate OneValue(evs: seq<Event>) {
    Walk(START, evs) == Some(FINISHED)
  }

  /** No event can follow a complete root value. */
  lemma NothingAfterRoot(e: Event)
    ensures Accept(FINISHED, e).None?
  {
  }
}
