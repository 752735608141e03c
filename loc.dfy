/**
  A span: the half-open byte range [start, end) of a diagnostic, with the
  optional id of the file it points into. Equality of spans is the datatype's
  structural equality, field by field, as the derived `PartialEq` is.
 */
module Spans {
  import opened Text

  datatype Loc = Loc(start: nat, end: nat, file: Option<nat>)

  /**
    `Loc::new` asserts `start <= end`; the failed assertion is the `None` case.
    A span it does build keeps the three fields it was given.
   */
  function NewLoc(start: nat, end: nat, file: Option<nat>): (r: Option<Loc>)
    ensures r.Some? <==> start <= end
    ensures r.Some? ==> r.value.start <= r.value.end
    ensures r.Some? ==> r.value.start == start && r.value.end == end && r.value.file == file
  {
    if start <= end then Some(Loc(start, end, file)) else None
  }

  /** `&source[start..end]` panics unless both ends are in range and on a code-point boundary. */
  predicate Sliceable(l: Loc, source: Bytes)
  {
    l.start <= l.end <= |source| && CharBoundary(source, l.start) && CharBoundary(source, l.end)
  }

  /** The covered bytes, in order: byte `i` of the slice is byte `start + i` of the source. */
  function Slice(l: Loc, source: Bytes): (r: Bytes)
    requires Sliceable(l, source)
    ensures |r| == l.end - l.start
    ensures forall i :: 0 <= i < |r| ==> r[i] == source[l.start + i]
  {
    source[l.start..l.end]
  }
}
