/** Outcomes shared by the whole pipeline: an optional value, the failures the
    coder can run into, and a value-or-failure result. */
module Results {

  datatype Option<T> = None | Some(value: T)

  /** The failures the coder raises on its own inputs. */
  datatype Error =
    | EmptyQueue              // popping the priority queue when it holds nothing
    | UnknownSymbol(symbol: char)  // encoding a character the code table lacks
    | EmptyBitString          // reading an empty bit string as a base-2 integer

  datatype Result<T> = Ok(value: T) | Err(error: Error)
}
