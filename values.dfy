/** The decoded value tree, the decoder's errors and its result type.
    The R objects the C code allocates are modelled by constructors:
    ScalarInteger by Int, mkString by Str, a generic vector (VECSXP) by
    List, the packed INTSXP and STRSXP vectors by IntVec and StrVec, and the
    VECSXP with a names attribute and class "bendict" by Dict. */
module Values {
  import opened Bytes

  datatype Value =
    | Int(n: int)
    | Str(bytes: seq<byte>)
    | List(items: seq<Value>)
    | IntVec(ints: seq<int>)
    | StrVec(strs: seq<seq<byte>>)
    | Dict(names: seq<seq<byte>>, values: seq<Value>)

  /** What a top-level call returns: R's NULL when the input is empty, the
      bare item when there is one, and a pairlist of items otherwise. */
  datatype Decoded =
    | Null
    | Bare(value: Value)
    | Items(values: seq<Value>)

  /** One constructor per kind of failure: several `error()` calls of the
      same kind share one (a wrong leading byte in either switch is
      UnexpectedToken, either refusal of `d` DictNotImplemented), and
      NilList is R's own failure of SETCDR on R_NilValue, not an `error()`
      call. The message text is not modelled. */
  datatype Error =
    | NotAnInteger        // parse_i: no leading 'i'
    | InvalidTerminator   // parse_i: no closing 'e'
    | NotAString          // parse_s: no leading digit
    | InvalidSeparator    // parse_s: no ':' after the length
    | StringTooLong       // parse_s: length above INT_MAX
    | PrematureEnd        // parse_s: input ends inside the payload
    | NotADict            // parse_d: no leading 'd'
    | UnterminatedDict    // parse_d: NUL before 'e'
    | NonStringKey        // parse_d: key does not start with a digit
    | NotAList            // parse_l: no leading 'l'
    | UnterminatedList    // parse_l: NUL before 'e'
    | UnexpectedToken     // leading byte is not i, l, d or a digit
    | DictNotImplemented  // older decoder: 'd' element or item
    | NilList             // SETCDR on R_NilValue inside reversePairList

  datatype Result<+T> = Ok(value: T) | Err(error: Error)

  /** A parser's outcome as a method returns it (result, final cursor)
      agrees with the outcome its specification gives: on success the same
      value and the same final position, on failure the same error. */
  predicate Agrees<T(==)>(r: Result<T>, pos: nat, spec: Result<(T, nat)>)
  {
    match spec
    case Ok(p) => r == Ok(p.0) && pos == p.1
    case Err(e) => r == Err(e)
  }
}
