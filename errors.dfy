/** Error codes shared by every component, and the Option wrapper. */
module Errors {

  /** The status values of `errorCode_t`. `ErrorHandler` prints a message for
      some of them and returns its argument unchanged; only the returned value
      is modelled. */
  datatype ErrorCode =
    | Success
    | OpenFile
    | InvalidScaleInput
    | NoTextFile
    | NoFontData
    | CursorOutOfBounds
    | FontCharacterNotFound
    | MemoryAllocationFailed
    | NullPointer
    | UnableToOpenComPort
    | OutOfBounds
    | WordTooLong
    | InvalidInput
    | InvalidFile
    | InvalidFontFile
    | InvalidFontCharacter
    | InvalidFontStroke
    | InvalidFontStrokeVec
    | InsertCharacter
    | AppendStroke
    | ParseStroke
    | UnexpectedEof
    | ParseCharacter

  datatype Option<+T> = None | Some(value: T)
}
