/** Errors raised by the finder and by its argument parser, and the
    Result type that carries either a value or one of those errors.
    Every error modelled here is an IllegalArgumentException; the
    constructor records which check threw it and the offending text. */
module Results {

  datatype Error =
    | UnknownSearchType(searchType: string)  // Finder.matches, default branch
    | ArgumentsNotPassed                     // ArgsName.of on an empty array
    | MissingDash(arg: string)               // argument does not start with '-'
    | MissingEquals(arg: string)             // argument has no '='
    | MissingKey(arg: string)                // first '=' directly after the '-'
    | MissingValue(arg: string)              // nothing after the first '='
    | KeyNotFound(key: string)               // ArgsName.get on an unknown key

  datatype Result<+T> = Ok(value: T) | Err(error: Error)

  datatype Option<+T> = None | Some(value: T)
}
