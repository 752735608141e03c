/**
  `SourceInfo`: a text buffer with the byte offset of every newline in it,
  the line/column arithmetic built on that index, and `show_source`, which
  renders the lines a span covers with its bytes highlighted.

  src/display.rs and src/reporter.rs hold two copies of this code; they differ
  only in that the display.rs copy has a `name` and writes a
  `--> name:line:col` locator line before the covered lines. `ShowLines` is
  the loop both copies share, `ShowSource` the display.rs function.
 */
module SourceIndex {
  import opened Text
  import opened Spans

  /**
    How highlighted bytes are shown: `String` writes a second line of carets,
    `Terminal` wraps them with `paint`, which stands for the ANSI styling
    (bold, underlined, red) applied by `Style::paint`.
   */
  datatype DisplayOptions = Terminal(paint: Bytes -> Bytes) | String

  predicate StrictlyIncreasing(ns: seq<nat>)
  {
    forall i, j :: 0 <= i < j < |ns| ==> ns[i] < ns[j]
  }

  /** `ns` lists, in increasing order, exactly the offsets of the newline bytes of `text`. */
  ghost predicate IsNewlineIndex(text: Bytes, ns: seq<nat>)
  {
    && StrictlyIncreasing(ns)
    && (forall i :: 0 <= i < |ns| ==> ns[i] < |text| && text[ns[i]] == NL)
    && (forall p :: 0 <= p < |text| && text[p] == NL ==> p in ns)
  }

  /** The offsets of the newline bytes of `text`, in order of appearance. */
  function NewlineOffsets(text: Bytes): seq<nat>
  {
    if text == [] then []
    else NewlineOffsets(text[..|text| - 1]) + (if text[|text| - 1] == NL then [|text| - 1] else [])
  }

  /** The offsets are increasing, each is a newline, and every newline is among them. */
  lemma {:induction false} NewlineOffsetsIndex(text: Bytes)
    ensures IsNewlineIndex(text, NewlineOffsets(text))
    decreases |text|
  {
    if text != [] {
      var t := text[..|text| - 1];
      NewlineOffsetsIndex(t);
      var ns := NewlineOffsets(t);
      assert forall i :: 0 <= i < |ns| ==> ns[i] < |t| && text[ns[i]] == t[ns[i]];
      forall p | 0 <= p < |t| && text[p] == NL
        ensures p in ns
      {
        assert t[p] == NL;
      }
    }
  }

  /**
    A text with its newline index. Its invariant ties the index to the text;
    the properties of the index follow from `NewlineOffsetsIndex`.
   */
  datatype SourceInfo = SourceInfo(name: Option<Bytes>, text: Bytes, newlines: seq<nat>)
  {
    ghost predicate Valid()
    {
      newlines == NewlineOffsets(text)
    }
  }

  lemma ValidIndex(si: SourceInfo)
    requires si.Valid()
    ensures IsNewlineIndex(si.text, si.newlines)
  {
    NewlineOffsetsIndex(si.text);
  }

  /**
    `SourceInfo::new`: one pass over the text recording the offset of every
    newline. (A `'\n'` char is exactly a 0x0A byte in UTF-8, so walking the
    bytes finds the same offsets as walking `char_indices`.)
   */
  method NewSourceInfo(name: Option<Bytes>, text: Bytes) returns (si: SourceInfo)
    ensures si.name == name && si.text == text
    ensures si.newlines == NewlineOffsets(text)
  {
    var newlines: seq<nat> := [];
    var i := 0;
    while i < |text|
      invariant i <= |text|
      invariant newlines == NewlineOffsets(text[..i])
    {
      assert text[..i + 1][..i] == text[..i];
      if text[i] == NL {
        newlines := newlines + [i];
      }
      i := i + 1;
    }
    assert text[..i] == text;
    si := SourceInfo(name, text, newlines);
  }

  /** Two increasing sequences with the same elements are the same sequence. */
  lemma {:induction false} IncreasingSameElements(a: seq<nat>, b: seq<nat>)
    requires StrictlyIncreasing(a) && StrictlyIncreasing(b)
    requires forall x :: x in a <==> x in b
    ensures a == b
    decreases |a|
  {
    assert a != [] ==> a[0] in a;
    assert b != [] ==> b[0] in b;
    if a != [] && b != [] {
      assert a[0] == b[0] by {
        assert a[0] in b;
        assert b[0] in a;
      }
      forall x
        ensures x in a[1..] <==> x in b[1..]
      {
        if x in a[1..] {
          assert x in b && x != b[0];
        }
        if x in b[1..] {
          assert x in a && x != a[0];
        }
      }
      IncreasingSameElements(a[1..], b[1..]);
    }
  }

  /** The index is determined by the text: nothing but the newline offsets can satisfy it. */
  lemma NewlineIndexUnique(text: Bytes, a: seq<nat>, b: seq<nat>)
    requires IsNewlineIndex(text, a) && IsNewlineIndex(text, b)
    ensures a == b
  {
    forall x
      ensures x in a <==> x in b
    {
      if x in a {
        var i :| 0 <= i < |a| && a[i] == x;
      }
      if x in b {
        var i :| 0 <= i < |b| && b[i] == x;
      }
    }
    IncreasingSameElements(a, b);
  }

  const NONE_NAME: Bytes := Ascii("<none>")
  const BAR: Bytes := Ascii("| ")
  const ARROW: Bytes := Ascii("--> ")
  const COLON: Bytes := Ascii(":")

  /** `SourceInfo::name`: the given name, or `<none>`. */
  function Name(si: SourceInfo): Bytes
  {
    match si.name
    case Some(s) => s
    case None => NONE_NAME
  }

  /** `partition_point` on `ns[lo..hi]` for the predicate `x < b`, by binary search. */
  function PartitionPoint(ns: seq<nat>, b: nat, lo: nat, hi: nat): (r: nat)
    requires lo <= hi <= |ns|
    ensures lo <= r <= hi
    decreases hi - lo
  {
    if lo == hi then lo
    else
      var mid := lo + (hi - lo) / 2;
      if ns[mid] < b then PartitionPoint(ns, b, mid + 1, hi)
      else PartitionPoint(ns, b, lo, mid)
  }

  /**
    On an increasing `ns` where everything left of `lo` is known to be below
    `b` and everything from `hi` on is known not to be, the point found splits
    `ns` into offsets below `b` and offsets at or above it.
   */
  lemma {:induction false} PartitionPointSplits(ns: seq<nat>, b: nat, lo: nat, hi: nat)
    requires StrictlyIncreasing(ns)
    requires lo <= hi <= |ns|
    requires forall i :: 0 <= i < lo ==> ns[i] < b
    requires forall i :: hi <= i < |ns| ==> b <= ns[i]
    ensures var r := PartitionPoint(ns, b, lo, hi);
      (forall i :: 0 <= i < r ==> ns[i] < b) && (forall i :: r <= i < |ns| ==> b <= ns[i])
    decreases hi - lo
  {
    if lo < hi {
      var mid := lo + (hi - lo) / 2;
      if ns[mid] < b {
        PartitionPointSplits(ns, b, mid + 1, hi);
      } else {
        PartitionPointSplits(ns, b, lo, mid);
      }
    }
  }

  /**
    `line_idx`: the 0-based line holding byte `bytepos`, i.e. the place that
    splits the newline offsets into those below `bytepos` and the rest.
   */
  function LineIdx(si: SourceInfo, bytepos: nat): (r: nat)
    requires si.Valid()
    ensures r <= |si.newlines|
  {
    PartitionPoint(si.newlines, bytepos, 0, |si.newlines|)
  }

  /** `line_idx(b)`: every newline before it is below `b`, every newline from it on is at or above `b`. */
  lemma LineIdxPartition(si: SourceInfo, b: nat)
    requires si.Valid()
    ensures forall i :: 0 <= i < LineIdx(si, b) ==> si.newlines[i] < b
    ensures forall i :: LineIdx(si, b) <= i < |si.newlines| ==> b <= si.newlines[i]
  {
    ValidIndex(si);
    PartitionPointSplits(si.newlines, b, 0, |si.newlines|);
  }

  /** How many of `ns` lie strictly below `b`. */
  function CountBelow(ns: seq<nat>, b: nat): nat
  {
    if ns == [] then 0
    else CountBelow(ns[..|ns| - 1], b) + (if ns[|ns| - 1] < b then 1 else 0)
  }

  lemma {:induction false} CountBelowSplit(ns: seq<nat>, b: nat, r: nat)
    requires r <= |ns|
    requires forall i :: 0 <= i < r ==> ns[i] < b
    requires forall i :: r <= i < |ns| ==> b <= ns[i]
    ensures CountBelow(ns, b) == r
    decreases |ns|
  {
    if ns != [] {
      if r == |ns| {
        CountBelowSplit(ns[..|ns| - 1], b, r - 1);
      } else {
        CountBelowSplit(ns[..|ns| - 1], b, r);
      }
    }
  }

  /** `line_idx(b)` is the number of newlines strictly before byte `b`. */
  lemma LineIdxCounts(si: SourceInfo, b: nat)
    requires si.Valid()
    ensures LineIdx(si, b) == CountBelow(si.newlines, b)
  {
    LineIdxPartition(si, b);
    CountBelowSplit(si.newlines, b, LineIdx(si, b));
  }

  /** A later byte is never on an earlier line. */
  lemma LineIdxMonotone(si: SourceInfo, b1: nat, b2: nat)
    requires si.Valid() && b1 <= b2
    ensures LineIdx(si, b1) <= LineIdx(si, b2)
  {
    LineIdxPartition(si, b1);
    LineIdxPartition(si, b2);
    var r2 := LineIdx(si, b2);
    assert r2 < |si.newlines| ==> b2 <= si.newlines[r2];
  }

  /**
    `line_start`: the first byte of line `n`: 0 for the first line, one past
    the previous newline otherwise, clamped to `len - 1`. (`len - 1` is a
    `usize` subtraction, hence the requirement for lines past the first.)
   */
  function LineStart(si: SourceInfo, n: nat): nat
    requires n == 0 || |si.text| > 0
  {
    if n == 0 then 0
    else if n > |si.newlines| then |si.text| - 1
    else Min(|si.text| - 1, si.newlines[n - 1] + 1)
  }

  /** `line_end`: the newline that ends line `n`, or the text length for the last line. */
  function LineEnd(si: SourceInfo, n: nat): nat
  {
    if n < |si.newlines| then si.newlines[n] else |si.text|
  }

  /** Every line of the text has bounds `line_start <= line_end <= len`. */
  lemma LineBounds(si: SourceInfo, n: nat)
    requires si.Valid() && n <= |si.newlines|
    ensures n == 0 || |si.text| > 0
    ensures LineStart(si, n) <= LineEnd(si, n) <= |si.text|
  {
    ValidIndex(si);
    if n > 0 {
      assert si.newlines[n - 1] < |si.text|;
      if n < |si.newlines| {
        assert si.newlines[n - 1] < si.newlines[n];
      }
    }
  }

  /** The line `line_idx(b)` names does contain `b` (a newline byte is the end of its line). */
  lemma LineOfContains(si: SourceInfo, b: nat)
    requires si.Valid() && b <= |si.text|
    ensures var n := LineIdx(si, b);
      (n == 0 || |si.text| > 0) && LineStart(si, n) <= b <= LineEnd(si, n)
    ensures var n := LineIdx(si, b);
      b < |si.text| && si.text[b] != NL ==> b < LineEnd(si, n)
  {
    ValidIndex(si);
    LineIdxPartition(si, b);
    var n := LineIdx(si, b);
    if n > 0 {
      assert si.newlines[n - 1] < b;
    }
  }

  /**
    The bytes shown for line `n`. A line before the last has no newline in it
    and is followed by one. The last line has none either, unless the text
    ends with a newline: then `line_start` clamps to `len - 1` and the last
    line shows that final newline byte alone.
   */
  lemma LineText(si: SourceInfo, n: nat)
    requires si.Valid() && n <= |si.newlines|
    ensures n == 0 || |si.text| > 0
    ensures LineStart(si, n) <= LineEnd(si, n) <= |si.text|
    ensures n < |si.newlines| ==> LineEnd(si, n) < |si.text| && si.text[LineEnd(si, n)] == NL
    ensures !EndsWithNewline(si) || n < |si.newlines| ==>
      forall p :: LineStart(si, n) <= p < LineEnd(si, n) ==> si.text[p] != NL
    ensures EndsWithNewline(si) && n == |si.newlines| ==>
      si.text[LineStart(si, n)..LineEnd(si, n)] == [NL]
  {
    ValidIndex(si);
    LineBounds(si, n);
    var s, e := LineStart(si, n), LineEnd(si, n);
    var ns := si.newlines;
    if !EndsWithNewline(si) || n < |ns| {
      if n > 0 {
        assert ns[n - 1] < |si.text| && si.text[ns[n - 1]] == NL;
        assert n < |ns| ==> ns[n - 1] < ns[n] < |si.text|;
        assert s == ns[n - 1] + 1;
      }
      forall j | 0 <= j < |ns|
        ensures ns[j] < s || e <= ns[j]
      {
        if j < n {
          assert j == n - 1 || ns[j] < ns[n - 1];
        } else {
          assert e == ns[n] && (j == n || ns[n] < ns[j]);
        }
      }
    }
  }

  /** The text's last byte is a newline. */
  predicate EndsWithNewline(si: SourceInfo)
  {
    |si.text| > 0 && si.text[|si.text| - 1] == NL
  }

  /**
    What `show_source` requires of the span it renders: the `Loc` invariant
    `start <= end` and a start within the text. `hs - s` never underflows,
    since `hs` is `max(s, start)`; on a visited line `he - hs` underflows
    exactly when the span starts past the end of the text, or starts past its
    own end on the line where it ends.
   */
  ghost predicate SpanFits(si: SourceInfo, loc: Loc)
  {
    loc.start <= loc.end && loc.start <= |si.text|
  }

  /** The bounds `(s, e)` of one rendered line and its highlighted part `(hs, he)`. */
  datatype LineSpan = LineSpan(s: nat, e: nat, hs: nat, he: nat)

  function Highlight(si: SourceInfo, loc: Loc, line: nat): LineSpan
    requires si.Valid() && line <= |si.newlines|
  {
    LineBounds(si, line);
    var s, e := LineStart(si, line), LineEnd(si, line);
    LineSpan(s, e, Max(s, loc.start), Min(e, loc.end))
  }

  /**
    On every line `show_source` visits, `s <= hs <= he <= e <= len`, and the
    highlight lies inside the span: all slices and subtractions are in range.
   */
  lemma HighlightInLine(si: SourceInfo, loc: Loc, line: nat)
    requires si.Valid() && SpanFits(si, loc)
    requires LineIdx(si, loc.start) <= line <= LineIdx(si, loc.end)
    ensures var h := Highlight(si, loc, line);
      h.s <= h.hs <= h.he <= h.e <= |si.text| && loc.start <= h.hs && h.he <= loc.end
  {
    ValidIndex(si);
    LineIdxPartition(si, loc.start);
    LineIdxPartition(si, loc.end);
    var ns := si.newlines;
    LineBounds(si, line);
    var s, e := LineStart(si, line), LineEnd(si, line);
    if line > 0 {
      assert ns[line - 1] < loc.end;
    }
    assert s <= loc.end;
    if line < |ns| {
      assert loc.start <= ns[line];
    }
    assert loc.start <= e;
  }

  /**
    Conversely, every byte of the span that is not a newline is highlighted,
    on its own line, and that line is one `show_source` visits.
   */
  lemma SpanBytesHighlighted(si: SourceInfo, loc: Loc, p: nat)
    requires si.Valid() && SpanFits(si, loc)
    requires loc.start <= p < loc.end && p < |si.text| && si.text[p] != NL
    ensures var line := LineIdx(si, p);
      && LineIdx(si, loc.start) <= line <= LineIdx(si, loc.end)
      && Highlight(si, loc, line).hs <= p < Highlight(si, loc, line).he
  {
    LineIdxMonotone(si, loc.start, p);
    LineIdxMonotone(si, p, loc.end);
    LineOfContains(si, p);
  }

  /** The caret row of String mode: `hs - s` spaces, then `he - hs` carets. */
  function CaretRow(h: LineSpan): (r: Bytes)
    requires h.s <= h.hs <= h.he
  {
    Repeat(h.hs - h.s, SPACE) + Repeat(h.he - h.hs, CARET)
  }

  /**
    Whatever bytes the line holds, its caret row is as long as the line up to
    the end of the highlight and has a caret exactly under the bytes of the
    span, a space under every other byte.
   */
  lemma CaretRowMarksSpan(si: SourceInfo, loc: Loc, line: nat)
    requires si.Valid() && SpanFits(si, loc)
    requires LineIdx(si, loc.start) <= line <= LineIdx(si, loc.end)
    ensures var h := Highlight(si, loc, line); h.s <= h.hs <= h.he
    ensures var h := Highlight(si, loc, line); var row := CaretRow(h);
      && |row| == h.he - h.s
      && forall i :: 0 <= i < |row| ==>
           (row[i] == CARET <==> loc.start <= h.s + i < loc.end)
           && (row[i] == SPACE <==> !(loc.start <= h.s + i < loc.end))
  {
    HighlightInLine(si, loc, line);
    var h := Highlight(si, loc, line);
    var row := CaretRow(h);
    RepeatContents(h.hs - h.s, SPACE);
    RepeatContents(h.he - h.hs, CARET);
    forall i | 0 <= i < |row|
      ensures row[i] == (if i < h.hs - h.s then SPACE else CARET)
    {
      if i < h.hs - h.s {
        assert row[i] == Repeat(h.hs - h.s, SPACE)[i];
      } else {
        assert row[i] == Repeat(h.he - h.hs, CARET)[i - (h.hs - h.s)];
      }
    }
  }

  /** `{:4>}` is fill `4`, right-aligned, with no width: the line number, unpadded, then `| `. */
  function LinePrefix(line: nat): Bytes
  {
    Decimal(line + 1) + BAR
  }

  /** The output of one iteration of the `show_source` loop. */
  function LineBlock(si: SourceInfo, loc: Loc, line: nat, config: DisplayOptions): Bytes
    requires si.Valid() && SpanFits(si, loc)
    requires LineIdx(si, loc.start) <= line <= LineIdx(si, loc.end)
  {
    HighlightInLine(si, loc, line);
    var h := Highlight(si, loc, line);
    match config
    case String =>
      (LinePrefix(line) + si.text[h.s..h.e] + [NL]) + (LinePrefix(line) + CaretRow(h) + [NL])
    case Terminal(paint) =>
      LinePrefix(line) + si.text[h.s..h.hs] + paint(si.text[h.hs..h.he]) + si.text[h.he..h.e] + [NL]
  }

  /** The blocks of lines `lo .. hi - 1`, in order. */
  function Blocks(si: SourceInfo, loc: Loc, config: DisplayOptions, lo: nat, hi: nat): Bytes
    requires si.Valid() && SpanFits(si, loc)
    requires LineIdx(si, loc.start) <= lo <= hi <= LineIdx(si, loc.end) + 1
    decreases hi - lo
  {
    if lo == hi then [] else Blocks(si, loc, config, lo, hi - 1) + LineBlock(si, loc, hi - 1, config)
  }

  /** Everything the `show_source` loop writes: one block per line from the span's first line to its last. */
  function LinesText(si: SourceInfo, loc: Loc, config: DisplayOptions): Bytes
    requires si.Valid() && SpanFits(si, loc)
  {
    LineIdxMonotone(si, loc.start, loc.end);
    Blocks(si, loc, config, LineIdx(si, loc.start), LineIdx(si, loc.end) + 1)
  }

  /** One iteration of the `show_source` loop, the imperative form of `LineBlock`: the rows written for one line, by display mode. */
  method WriteLine(si: SourceInfo, loc: Loc, line: nat, config: DisplayOptions) returns (block: Bytes)
    requires si.Valid() && SpanFits(si, loc)
    requires LineIdx(si, loc.start) <= line <= LineIdx(si, loc.end)
    ensures block == LineBlock(si, loc, line, config)
  {
    match config {
      case String =>
        block := WriteRows(si, loc, line);
      case Terminal(paint) =>
        block := WritePainted(si, loc, line, paint);
    }
  }

  /** String mode, as `LineBlock` defines it: the line's text row, then its caret row. */
  method WriteRows(si: SourceInfo, loc: Loc, line: nat) returns (block: Bytes)
    requires si.Valid() && SpanFits(si, loc)
    requires LineIdx(si, loc.start) <= line <= LineIdx(si, loc.end)
    ensures block == LineBlock(si, loc, line, String)
  {
    HighlightInLine(si, loc, line);
    var s, e := LineStart(si, line), LineEnd(si, line);
    var hs, he := Max(s, loc.start), Min(e, loc.end);
    assert Highlight(si, loc, line) == LineSpan(s, e, hs, he);
    var textRow := LinePrefix(line) + si.text[s..e] + [NL];
    var carets := Repeat(hs - s, SPACE) + Repeat(he - hs, CARET);
    block := textRow + (LinePrefix(line) + carets + [NL]);
  }

  /** Terminal mode, as `LineBlock` defines it: the line with its highlighted part painted. */
  method WritePainted(si: SourceInfo, loc: Loc, line: nat, paint: Bytes -> Bytes) returns (block: Bytes)
    requires si.Valid() && SpanFits(si, loc)
    requires LineIdx(si, loc.start) <= line <= LineIdx(si, loc.end)
    ensures block == LineBlock(si, loc, line, Terminal(paint))
  {
    HighlightInLine(si, loc, line);
    var s, e := LineStart(si, line), LineEnd(si, line);
    var hs, he := Max(s, loc.start), Min(e, loc.end);
    assert Highlight(si, loc, line) == LineSpan(s, e, hs, he);
    block := LinePrefix(line) + si.text[s..hs] + paint(si.text[hs..he]) + si.text[he..e] + [NL];
  }

  /** Every block ends with a newline, and the span always covers at least one line, so the whole does too. */
  lemma LinesTextEndsWithNewline(si: SourceInfo, loc: Loc, config: DisplayOptions)
    requires si.Valid() && SpanFits(si, loc)
    ensures EndsWith(LinesText(si, loc, config), NL)
  {
    LineIdxMonotone(si, loc.start, loc.end);
    var line := LineIdx(si, loc.end);
    var b := LineBlock(si, loc, line, config);
    assert EndsWith(b, NL);
  }

  /** The loop of `show_source` (both copies): every line from the span's first to its last, in order. */
  method ShowLines(si: SourceInfo, loc: Loc, config: DisplayOptions) returns (out: Bytes)
    requires si.Valid() && SpanFits(si, loc)
    ensures out == LinesText(si, loc, config)
  {
    hide LineBlock;
    var startLine, endLine := LineIdx(si, loc.start), LineIdx(si, loc.end);
    LineIdxMonotone(si, loc.start, loc.end);
    out := [];
    var line := startLine;
    while line <= endLine
      invariant startLine <= line <= endLine + 1
      invariant out == Blocks(si, loc, config, startLine, line)
    {
      var block := WriteLine(si, loc, line, config);
      out := out + block;
      line := line + 1;
    }
  }

  /** The text row of a visited line holds a newline only in the clamped-last-line case. */
  lemma TextRowCount(si: SourceInfo, loc: Loc, line: nat)
    requires si.Valid() && SpanFits(si, loc)
    requires LineIdx(si, loc.start) <= line <= LineIdx(si, loc.end)
    ensures var h := Highlight(si, loc, line);
      h.s <= h.e <= |si.text| &&
      Count(NL, si.text[h.s..h.e]) == if line == |si.newlines| && EndsWithNewline(si) then 1 else 0
  {
    var h := Highlight(si, loc, line);
    LineText(si, line);
    var t := si.text[h.s..h.e];
    if line == |si.newlines| && EndsWithNewline(si) {
      assert t == [NL];
      assert t[..0] == [];
    } else {
      CountAbsent(NL, t);
    }
  }

  /** One String-mode block: its two rows, plus the newline a clamped last line shows. */
  lemma StringBlockCount(si: SourceInfo, loc: Loc, line: nat)
    requires si.Valid() && SpanFits(si, loc)
    requires LineIdx(si, loc.start) <= line <= LineIdx(si, loc.end)
    ensures Count(NL, LineBlock(si, loc, line, String)) ==
      2 + (if line == |si.newlines| && EndsWithNewline(si) then 1 else 0)
  {
    HighlightInLine(si, loc, line);
    var h := Highlight(si, loc, line);
    TextRowCount(si, loc, line);
    var t := si.text[h.s..h.e];
    var pre := LinePrefix(line);
    var row := CaretRow(h);
    LinePrefixCount(line);
    CaretRowCount(h);
    RowCount(pre, t);
    RowCount(pre, row);
    assert LineBlock(si, loc, line, String) == (pre + t + [NL]) + (pre + row + [NL]);
    CountAppend(NL, pre + t + [NL], pre + row + [NL]);
  }

  /** The line-number prefix holds no newline. */
  lemma LinePrefixCount(line: nat)
    ensures Count(NL, LinePrefix(line)) == 0
  {
    var pre := LinePrefix(line);
    DecimalDigits(line + 1);
    assert forall i :: 0 <= i < |pre| ==> pre[i] != NL by {
      assert pre == Decimal(line + 1) + BAR;
    }
    CountAbsent(NL, pre);
  }

  /** `paint` adds no line break of its own: ANSI styling wraps the text in escape bytes only. */
  ghost predicate KeepsNewlines(paint: Bytes -> Bytes)
  {
    forall t :: Count(NL, paint(t)) == Count(NL, t)
  }

  /** One Terminal-mode block: a single output line, plus the newline a clamped last line shows. */
  lemma TerminalBlockCount(si: SourceInfo, loc: Loc, line: nat, paint: Bytes -> Bytes)
    requires si.Valid() && SpanFits(si, loc) && KeepsNewlines(paint)
    requires LineIdx(si, loc.start) <= line <= LineIdx(si, loc.end)
    ensures Count(NL, LineBlock(si, loc, line, Terminal(paint))) ==
      1 + (if line == |si.newlines| && EndsWithNewline(si) then 1 else 0)
  {
    HighlightInLine(si, loc, line);
    var h := Highlight(si, loc, line);
    TextRowCount(si, loc, line);
    var pre := LinePrefix(line);
    var b := si.text[h.hs..h.he];
    LinePrefixCount(line);
    SliceCounts(si.text, h.s, h.hs, h.he, h.e);
    assert Count(NL, paint(b)) == Count(NL, b);
    assert LineBlock(si, loc, line, Terminal(paint)) ==
      pre + si.text[h.s..h.hs] + paint(b) + si.text[h.he..h.e] + [NL];
    PaintedRowCount(pre, si.text[h.s..h.hs], paint(b), si.text[h.he..h.e]);
  }

  /** Cutting a slice in three splits its newlines among the pieces. */
  lemma SliceCounts(t: Bytes, s: nat, hs: nat, he: nat, e: nat)
    requires s <= hs <= he <= e <= |t|
    ensures Count(NL, t[s..hs]) + Count(NL, t[hs..he]) + Count(NL, t[he..e]) == Count(NL, t[s..e])
  {
    assert t[s..hs] + t[hs..he] + t[he..e] == t[s..e];
    CountAppend(NL, t[s..hs], t[hs..he]);
    CountAppend(NL, t[s..hs] + t[hs..he], t[he..e]);
  }

  lemma PaintedRowCount(pre: Bytes, a: Bytes, p: Bytes, c: Bytes)
    ensures Count(NL, pre + a + p + c + [NL]) == Count(NL, pre) + Count(NL, a) + Count(NL, p) + Count(NL, c) + 1
  {
    CountAppend(NL, pre, a);
    CountAppend(NL, pre + a, p);
    CountAppend(NL, pre + a + p, c);
    CountAppend(NL, pre + a + p + c, [NL]);
    assert [NL][..0] == [];
  }

  /**
    In Terminal mode each covered line gives one output line, except that the
    last line of a text ending with a newline shows that newline and so gives
    two.
   */
  lemma {:induction false} TerminalLinesCount(si: SourceInfo, loc: Loc, paint: Bytes -> Bytes, lo: nat, hi: nat)
    requires si.Valid() && SpanFits(si, loc) && KeepsNewlines(paint)
    requires LineIdx(si, loc.start) <= lo <= hi <= LineIdx(si, loc.end) + 1
    ensures Count(NL, Blocks(si, loc, Terminal(paint), lo, hi)) ==
      (hi - lo) + (if lo < hi && hi - 1 == |si.newlines| && EndsWithNewline(si) then 1 else 0)
    decreases hi - lo
  {
    hide LineBlock;
    if lo < hi {
      var line := hi - 1;
      var prev, block := Blocks(si, loc, Terminal(paint), lo, line), LineBlock(si, loc, line, Terminal(paint));
      TerminalLinesCount(si, loc, paint, lo, line);
      TerminalBlockCount(si, loc, line, paint);
      CountAppend(NL, prev, block);
    }
  }

  /** A caret row holds only spaces and carets, so no newline. */
  lemma CaretRowCount(h: LineSpan)
    requires h.s <= h.hs <= h.he
    ensures Count(NL, CaretRow(h)) == 0
  {
    var row := CaretRow(h);
    RepeatContents(h.hs - h.s, SPACE);
    RepeatContents(h.he - h.hs, CARET);
    assert forall i :: 0 <= i < |row| ==> row[i] != NL;
    CountAbsent(NL, row);
  }

  lemma RowCount(pre: Bytes, t: Bytes)
    ensures Count(NL, pre + t + [NL]) == Count(NL, pre) + Count(NL, t) + 1
  {
    CountAppend(NL, pre, t);
    CountAppend(NL, pre + t, [NL]);
    assert [NL][..0] == [];
  }

  /**
    In String mode each covered line gives two output lines, except that the
    last line of a text ending with a newline shows that newline and so gives
    three.
   */
  lemma {:induction false} StringLinesCount(si: SourceInfo, loc: Loc, lo: nat, hi: nat)
    requires si.Valid() && SpanFits(si, loc)
    requires LineIdx(si, loc.start) <= lo <= hi <= LineIdx(si, loc.end) + 1
    ensures Count(NL, Blocks(si, loc, String, lo, hi)) ==
      2 * (hi - lo) + (if lo < hi && hi - 1 == |si.newlines| && EndsWithNewline(si) then 1 else 0)
    decreases hi - lo
  {
    hide LineBlock;
    if lo < hi {
      var line := hi - 1;
      var prev, block := Blocks(si, loc, String, lo, line), LineBlock(si, loc, line, String);
      StringLinesCount(si, loc, lo, line);
      StringBlockCount(si, loc, line);
      CountAppend(NL, prev, block);
    }
  }

  /** What the display.rs `show_source` further requires: `text[line_start..loc.start]` must cut at a code point. */
  ghost predicate Showable(si: SourceInfo, loc: Loc, config: DisplayOptions)
  {
    && SpanFits(si, loc)
    && CharBoundary(si.text, loc.start)
    && (config.Terminal? && loc.end <= |si.text| ==> CharBoundary(si.text, loc.end))
  }

  /**
    The 0-based column of the span's first byte, counted in code points from
    the start of its line (the caret row, by contrast, counts bytes).
   */
  function StartColumn(si: SourceInfo, loc: Loc): nat
    requires si.Valid() && SpanFits(si, loc)
  {
    LineOfContains(si, loc.start);
    var n := LineIdx(si, loc.start);
    CodePoints(si.text[LineStart(si, n)..loc.start])
  }

  /** The locator line `--> <name>:<line>:<col>`, line and column 1-based. */
  function Locator(si: SourceInfo, loc: Loc): Bytes
    requires si.Valid() && SpanFits(si, loc)
  {
    ARROW + Name(si) + COLON + Decimal(LineIdx(si, loc.start) + 1)
      + COLON + Decimal(StartColumn(si, loc) + 1) + [NL]
  }

  /**
    The locator names the line holding the span's start, and a column no
    larger than the start's byte distance from the line start, equal to it on
    ASCII text.
   */
  lemma LocatorPosition(si: SourceInfo, loc: Loc)
    requires si.Valid() && SpanFits(si, loc)
    ensures var n := LineIdx(si, loc.start);
      && n == CountBelow(si.newlines, loc.start)
      && (n == 0 || |si.text| > 0)
      && LineStart(si, n) <= loc.start <= LineEnd(si, n)
      && StartColumn(si, loc) <= loc.start - LineStart(si, n)
      && ((forall i :: LineStart(si, n) <= i < loc.start ==> si.text[i] < 0x80) ==>
            StartColumn(si, loc) == loc.start - LineStart(si, n))
  {
    LineIdxCounts(si, loc.start);
    LineOfContains(si, loc.start);
    var n := LineIdx(si, loc.start);
    var t := si.text[LineStart(si, n)..loc.start];
    if forall i :: LineStart(si, n) <= i < loc.start ==> si.text[i] < 0x80 {
      CodePointsAscii(t);
    }
  }

  function ShowSourceText(si: SourceInfo, loc: Loc, config: DisplayOptions): Bytes
    requires si.Valid() && Showable(si, loc, config)
  {
    Locator(si, loc) + LinesText(si, loc, config)
  }

  /** display.rs `show_source`, the imperative form of `ShowSourceText`: the locator line, then the covered lines. */
  method ShowSource(si: SourceInfo, loc: Loc, config: DisplayOptions) returns (out: Bytes)
    requires si.Valid() && Showable(si, loc, config)
    ensures out == ShowSourceText(si, loc, config)
  {
    var startLine := LineIdx(si, loc.start);
    LineOfContains(si, loc.start);
    var startChar := CodePoints(si.text[LineStart(si, startLine)..loc.start]);
    out := ARROW + Name(si) + COLON + Decimal(startLine + 1)
      + COLON + Decimal(startChar + 1) + [NL];
    var lines := ShowLines(si, loc, config);
    out := out + lines;
  }
}
