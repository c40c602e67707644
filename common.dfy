/** Types shared by the glyph-mapping engine: bytes, optional values and
    the failures the engine can raise. */
module Common {

  /** One 8-bit sample: a channel of a camera pixel or a coverage value
      of a rasterised glyph. */
  type Byte = x: int | 0 <= x < 256

  datatype Option<+T> = None | Some(value: T)

  /** The exceptions the engine raises, one per cause. */
  datatype Error =
    | DivisionByZero    // every printable glyph rasterised blank: the normalisation divides by 0
    | ModeNotSupported  // `run` called with a mode other than "ascii" or "emoji"
    | EmptyVocabulary   // a pixel was matched against a table with no entries

  datatype Result<+T> = Success(value: T) | Failure(error: Error)
}
