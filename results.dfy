/** Error values and the result wrappers shared by the scrapbox modules. */
module Results {

  /** The errors the scrapbox package creates (errors.New / errors.Wrap). */
  datatype Error =
    | InvalidText                                  // trimBrackets: "invalid text"
    | InvalidBoldText                              // bold_text.go: "invalid text for bold text"
    | InvalidDecoration(symbol: char)              // trimDecoratedRawText
    | Wrapped(context: string, cause: Error)       // errors.Wrap(cause, context)

  /** A value or an error, as Go's `(T, error)` pairs. */
  datatype Result<+T> = Ok(value: T) | Err(error: Error)

  datatype Option<+T> = None | Some(value: T)
}
