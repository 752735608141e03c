/**
  Error codes: a short machine-readable tag (shown in `error[<short>]`) and a
  long human description. In the source each code is a `&'static ErrorDesc`
  declared once; here a code is the plain record.
 */
module Codes {
  import opened Text

  datatype ErrorDesc = ErrorDesc(short: Bytes, long: Bytes)
}
