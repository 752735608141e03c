/**
  The diagnostics stored in a reporter's log: an error (code, optional span,
  message) or an informational message.
 */
module Messages {
  import opened Text
  import opened Spans
  import opened Codes

  /** The source's `Error` record. */
  datatype Diagnostic = Diagnostic(code: ErrorDesc, loc: Option<Loc>, message: Bytes)

  datatype Message = Error(diag: Diagnostic) | Info(text: Bytes)

  const ERROR_OPEN: Bytes := Ascii("error[")
  const ERROR_CLOSE: Bytes := Ascii("]: ")
  const INFO_TAG: Bytes := Ascii("info: ")

  /** The first line written for an error: `error[<short>]: <message>` and a newline. */
  function Header(d: Diagnostic): (r: Bytes)
  {
    ERROR_OPEN + d.code.short + ERROR_CLOSE + d.message + [NL]
  }
}
