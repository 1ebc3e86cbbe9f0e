/** The error kinds of the library. `DecodeError` is the common base of the three
    kinds the codec and the parser raise; the value-path grammar error is a separate
    kind (it does not derive from `DecodeError`) and lives with the value path. */
module Exception {

  datatype DecodeError =
    | UnicodeCodePointError  // surrogate-pair or range violation
    | JsonParseError         // grammar violation, truncation, bad escape
    | Utf8DecodeError        // malformed UTF-8 byte sequence

  /** A thrown exception is an `Err`; a normal return is an `Ok`. */
  datatype Result<+T> = Ok(value: T) | Err(error: DecodeError)

  /** The outcome of a routine that scans forward from a position: what it
      returned or threw, and where it left the position (on an error: where the
      error was detected). */
  datatype Scan<+T> = Scan(result: Result<T>, pos: nat)

  /** A byte-string result with `p` written in front of it (an error passes
      through): output appended before the rest of a routine ran. */
  function Prepend<T>(p: seq<T>, r: Result<seq<T>>): (q: Result<seq<T>>)
    ensures q.Ok? <==> r.Ok?
    ensures q.Ok? ==> q.value == p + r.value
    ensures q.Err? ==> q.error == r.error
  {
    if r.Ok? then Ok(p + r.value) else r
  }

  lemma PrependTwice<T>(p: seq<T>, q: seq<T>, r: Result<seq<T>>)
    ensures Prepend(p, Prepend(q, r)) == Prepend(p + q, r)
  {
    if r.Ok? {
      assert p + (q + r.value) == (p + q) + r.value;
    }
  }

  lemma PrependNothing<T>(r: Result<seq<T>>)
    ensures Prepend([], r) == r
  {
    if r.Ok? {
      assert [] + r.value == r.value;
    }
  }

  datatype Option<+T> = None | Some(value: T)
}
