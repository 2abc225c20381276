/** Shared value types: PHP's `null`-or-value, and the exceptions the library throws. */
module Common {

  /** A value or PHP's `null` / `false` "no value" marker. */
  datatype Option<+T> = None | Some(value: T)

  /** Why a compressor gave up (the `CompressionException` cases). */
  datatype CompressionCause =
    | SymbolNotInTree     // HuffmanCoding::encode: a data symbol has no code
    | TruncatedStream     // HuffmanCoding::decode: bits ran out before the EOF leaf
    | WrongNodeCount      // HuffmanNodeQueue::getOnlyNode with a count other than 1
    | MalformedTree       // HuffmanNode::loadFromString could not read a tree
    | GzipFailed          // the zlib call returned false

  /** The library's exception classes, plus PHP engine errors the code can run into. */
  datatype Error =
    | InvalidParam(param: string)
    | EncodeError
    | DecodeError
    | CompressionError(cause: CompressionCause)
    | CryptError
    | TypeError           // PHP raises a TypeError (null where a string or array is required)
    | NonTermination      // the PHP loop would never return

  /** A returned value, or the exception thrown instead. */
  datatype Result<+T> = Ok(value: T) | Err(error: Error)
}
