/** Values shared by every part of the downloader model: optional values,
    results that carry the exception the Python code would raise, and bytes. */
module Base {

  datatype Option<+T> = None | Some(value: T)

  datatype Result<+T> = Success(value: T) | Failure(error: Error)

  /** The exceptions that leave (or are caught inside) `download`. */
  datatype Error =
    | MissingHeader(header: string)  // KeyError on a response header lookup
    | NoFileName                     // AttributeError: `None.rsplit` when the URL has no usable segment
    | NoExtension                    // ValueError raised by getFileExtension
    | EmptyCounter                   // ValueError from `int('')` inside fixFileExists
    | DivisionByZero                 // ZeroDivisionError in progressBar when total is 0
    | HttpStatus(code: int)          // HTTPError from raise_for_status on a 4xx or 5xx reply

  newtype byte = x: int | 0 <= x < 256

  function Min(a: int, b: int): (m: int)
    ensures m <= a && m <= b && (m == a || m == b)
  {
    if a <= b then a else b
  }
}
