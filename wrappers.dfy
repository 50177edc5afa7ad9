/** Option and Result, and the conditions under which the TL1 library raises. */
module Wrappers {

  datatype Option<+T> = None | Some(value: T)

  /** The reasons an operation of the library stops with an exception. */
  datatype Error =
    | UnexpectedEndOfQuotedString            // AST.split_quoted ran out of input
    | UnparseableElement                     // a structured element that is neither an object nor a string
    | UnknownNodeType                        // a structured node whose "node" tag names no node class
    | MalformedStructure                     // a structured form of the wrong shape (Ruby KeyError, TypeError, NoMethodError)
    | MissingKeywordValue(pair: string)      // a keyword pair without '=' (Ruby calls a method on nil)
    | LiteralMismatch(expected: string, actual: string)
    | UnknownKeyword(keyword: string)        // Hash#fetch of a keyword the format does not have
    | ExtraSegment(segment: string)          // a segment zipped with no node (Ruby calls parse on nil)
    | UnexpectedEndOfMessage                 // the record scanner ran out of input
    | BackslashAtEnd                         // a record ends in a lone backslash (Ruby appends nil)

  datatype Result<+T> = Ok(value: T) | Err(error: Error) {
    predicate IsFailure() {
      Err?
    }

    function PropagateFailure<U>(): Result<U>
      requires Err?
    {
      Err(error)
    }

    function Extract(): T
      requires Ok?
    {
      value
    }
  }
}
