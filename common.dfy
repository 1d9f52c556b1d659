/** Failure-compatible wrappers shared by the whole model. Every exception the
    plugin can raise on the paths modelled here becomes an `Err` carrying one
    of the `Error` cases below. */
module Common {

  datatype Option<T> = None | Some(value: T)

  datatype Error =
    | BadColor(text: string)         // _parse_color: not 6 or 8 hex digits after the '#'s
    | FontUnavailable                // _resolve_font: neither the font nor "default" loads
    | FontLoadFailed(path: string)   // render_text.load_font: ImageFont.truetype raised
    | BadArgument(key: string)       // a render option of a kind render_text cannot use
    | UnexpectedArgument             // **params holds a key render_text does not accept
    | BadCanvasSize                  // Image.new with a negative width or height

  datatype Result<T> = Ok(value: T) | Err(error: Error) {
    predicate IsFailure() { Err? }

    function PropagateFailure<U>(): Result<U>
      requires Err?
    {
      Err(error)
    }

    function Extract(): T
      requires Ok?
    {
      value
    }
  }
}
