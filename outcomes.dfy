/** Failure values shared by the parser, the container codec and the skin loader.
    Every exception the JavaScript code can raise on the modelled paths becomes an
    `Err` carrying one of these. */
module Outcomes {

  datatype Error =
    | SchemaError            // a key that does not match `[#]name[:count]`, or a name defined twice
    | UnsupportedType        // `Unknown type` thrown by parseValue / writeValue
    | OutOfBounds            // a DataView access past `byteLength` (RangeError)
    | EmptyImage             // getImageData of a zero width or height (IndexSizeError)
    | InvalidInput           // KPacker: absent / short input, or not a DataView
    | InvalidContainer       // KPacker: wrong magic number
    | UnsupportedAlgorithm   // KPacker: compression flag other than 1
    | CodecError(message: string)     // an exception raised inside the external LZMA codec
    | CompressionError(cause: Error)  // pack's wrapper around a compressor exception

  datatype Result<+T> = Ok(value: T) | Err(error: Error) {
    predicate IsFailure() { Err? }

    function PropagateFailure<U>(): Result<U>
      requires Err?
    {
      Err(error)
    }

    function Extract(): T
      requires Ok?
    {
      value
    }
  }

  datatype Option<+T> = None | Some(value: T)
}
