/**
  Worked instances of the renderer on small texts: the newline index, the
  lines a span covers and the highlight on each, the caret rows, the
  locator's line and column, and the report of a log of info messages.
 */
module Scenarios {
  import opened Text
  import opened Spans
  import opened Messages
  import opened SourceIndex
  import opened Reporting

  /** Any correct newline index of a text is the one `SourceInfo::new` builds. */
  lemma OffsetsFromIndex(text: Bytes, ns: seq<nat>)
    requires IsNewlineIndex(text, ns)
    ensures NewlineOffsets(text) == ns
  {
    NewlineOffsetsIndex(text);
    NewlineIndexUnique(text, NewlineOffsets(text), ns);
  }

  /** `"abc\ndef\n"` */
  function TwoLines(): SourceInfo { SourceInfo(None, [97, 98, 99, 10, 100, 101, 102, 10], [3, 7]) }

  lemma TwoLinesValid()
    ensures TwoLines().Valid()
  {
    var t := TwoLines().text;
    assert forall p :: 0 <= p < |t| && t[p] == NL ==> p == 3 || p == 7;
    OffsetsFromIndex(t, [3, 7]);
  }

  /** The span `[1, 6)` ("bc\nde") starts on line 0 and ends on line 1. */
  lemma TwoLinesSpanLines()
    ensures TwoLines().Valid()
    ensures LineIdx(TwoLines(), 1) == 0 && LineIdx(TwoLines(), 6) == 1
  {
    TwoLinesValid();
    var si := TwoLines();
    var l0, l1 := LineIdx(si, 1), LineIdx(si, 6);
    assert l0 < 2 ==> 1 <= si.newlines[l0];
    assert l1 < 2 ==> 6 <= si.newlines[l1];
  }

  /** Line 0 is `[0, 3)` highlighted from the span's start; line 1 is `[4, 7)` highlighted up to the span's end. */
  lemma TwoLinesHighlight()
    ensures TwoLines().Valid()
    ensures Highlight(TwoLines(), Loc(1, 6, None), 0) == LineSpan(0, 3, 1, 3)
    ensures Highlight(TwoLines(), Loc(1, 6, None), 1) == LineSpan(4, 7, 4, 6)
  {
    TwoLinesValid();
  }

  /** Line 0 shows `abc` over one space and two carets. */
  lemma TwoLinesFirstRows()
    ensures TwoLines().text[0..3] == [97, 98, 99]
    ensures CaretRow(LineSpan(0, 3, 1, 3)) == [SPACE, CARET, CARET]
  {
    assert Repeat(1, SPACE) == [SPACE];
    assert Repeat(2, CARET) == [CARET, CARET];
  }

  /** Line 1 shows `def` over two carets and no space. */
  lemma TwoLinesSecondRows()
    ensures TwoLines().text[4..7] == [100, 101, 102]
    ensures CaretRow(LineSpan(4, 7, 4, 6)) == [CARET, CARET]
  {
    assert Repeat(2, CARET) == [CARET, CARET];
  }

  /**
    Line numbers are written unpadded: `{:4>}` sets the fill character `4`
    but no width, so line 0 is prefixed by `1| `.
   */
  lemma FirstLinePrefix()
    ensures LinePrefix(0) == [49, 124, 32]
  {
  }

  /** `"let x = ;\n"` in a file named `test.txt`. */
  function LetSource(): SourceInfo
  {
    SourceInfo(Some([116, 101, 115, 116, 46, 116, 120, 116]), [108, 101, 116, 32, 120, 32, 61, 32, 59, 10], [9])
  }

  lemma LetValid()
    ensures LetSource().Valid()
  {
    var t := LetSource().text;
    assert forall p :: 0 <= p < |t| && t[p] == NL ==> p == 9;
    OffsetsFromIndex(t, [9]);
  }

  /** The span `[8, 9)` covers the `;`: the locator reads `test.txt:1:9`. */
  lemma LetLocator()
    ensures LetSource().Valid() && Showable(LetSource(), Loc(8, 9, None), String)
    ensures LineIdx(LetSource(), 8) == 0
    ensures StartColumn(LetSource(), Loc(8, 9, None)) == 8
    ensures Decimal(0 + 1) == [49] && Decimal(8 + 1) == [57]
  {
    LetValid();
    var si := LetSource();
    var n := LineIdx(si, 8);
    assert n < 1 ==> 8 <= si.newlines[n];
    LocatorPosition(si, Loc(8, 9, None));
    assert forall i :: 0 <= i < 8 ==> si.text[i] < 0x80;
  }

  /** The locator names the file as given; a source without a name is shown as `<none>`. */
  lemma LocatorNames()
    ensures Name(LetSource()) == [116, 101, 115, 116, 46, 116, 120, 116]
    ensures Name(TwoLines()) == [60, 110, 111, 110, 101, 62]
  {
    var none := NONE_NAME;
    assert none == [60, 110, 111, 110, 101, 62];
  }

  /** The caret row under `let x = ;` is eight spaces and one caret. */
  lemma LetHighlight()
    ensures LetSource().Valid()
    ensures Highlight(LetSource(), Loc(8, 9, None), 0) == LineSpan(0, 9, 8, 9)
  {
    LetValid();
  }

  /** `"€x\n"`: the euro sign is three bytes but one code point. */
  function Euro(): SourceInfo { SourceInfo(None, [0xE2, 0x82, 0xAC, 120, 10], [4]) }

  lemma EuroValid()
    ensures Euro().Valid()
  {
    var t := Euro().text;
    assert forall p :: 0 <= p < |t| && t[p] == NL ==> p == 4;
    OffsetsFromIndex(t, [4]);
  }

  /** For the span `[3, 4)` over `x` the locator column is 2: one code point precedes it. */
  lemma EuroColumn()
    ensures Euro().Valid()
    ensures StartColumn(Euro(), Loc(3, 4, None)) == 1
  {
    EuroValid();
    var si := Euro();
    var n := LineIdx(si, 3);
    assert n < 1 ==> 3 <= si.newlines[n];
    var euro: Bytes := [0xE2, 0x82, 0xAC];
    assert si.text[LineStart(si, 0)..3] == euro;
    assert euro[..2][..1] == [0xE2];
    assert CodePoints([0xE2]) == 1;
    assert CodePoints(euro[..2]) == 1;
    assert CodePoints(euro) == 1;
  }

  /** The caret row for the same span is indented by three bytes, not one. */
  lemma EuroHighlight()
    ensures Euro().Valid()
    ensures Highlight(Euro(), Loc(3, 4, None), 0) == LineSpan(0, 4, 3, 4)
  {
    EuroValid();
  }

  /** `"abc\n"`: a text ending in a newline. */
  function Clamped(): SourceInfo { SourceInfo(None, [97, 98, 99, 10], [3]) }

  lemma ClampedValid()
    ensures Clamped().Valid()
  {
    var t := Clamped().text;
    assert forall p :: 0 <= p < |t| && t[p] == NL ==> p == 3;
    OffsetsFromIndex(t, [3]);
  }

  /**
    An empty span at the very end of `"abc\n"` lies on line 1, whose start is
    clamped to `len - 1`: the text row written for it is the final newline
    itself.
   */
  lemma ClampedLastLine()
    ensures Clamped().Valid()
    ensures LineIdx(Clamped(), 4) == 1
    ensures Highlight(Clamped(), Loc(4, 4, None), 1) == LineSpan(3, 4, 4, 4)
    ensures Clamped().text[3..4] == [NL]
  {
    ClampedValid();
  }

  /**
    The locator of that span counts the final newline: its line starts at
    offset 3, so the 0-based column is 1 and the locator reads `:2:2`.
   */
  lemma ClampedColumn()
    ensures Clamped().Valid() && SpanFits(Clamped(), Loc(4, 4, None))
    ensures LineIdx(Clamped(), 4) + 1 == 2
    ensures StartColumn(Clamped(), Loc(4, 4, None)) + 1 == 2
  {
    ClampedLastLine();
    var t := Clamped().text;
    assert t[3..4] == [NL];
    assert CodePoints([NL]) == CodePoints([]) + 1;
  }

  /** A log of the info messages `a` and `b` renders as `a\nb\n`. */
  lemma InfoReport(src: SourceInfo)
    requires src.Valid()
    ensures AllReportable(src, [Message.Info([97]), Message.Info([98])])
    ensures RenderLog(src, [Message.Info([97]), Message.Info([98])]) == [97, NL, 98] + [NL]
  {
    RenderInfos(src, [[97], [98]]);
    assert Infos([[97], [98]]) == [Message.Info([97]), Message.Info([98])];
    assert JoinLines([[97], [98]]) == JoinLines([[97]]) + [NL] + [98];
  }

  /** A fresh reporter, `info("a")`, `info("b")`, then `report`: the result is `a\nb`. */
  method InfoThenReport(text: Bytes) returns (s: Bytes)
    ensures s == [97, NL, 98]
  {
    var r := new Reporter(text);
    r.Info([97]);
    r.Info([98]);
    assert r.out.log == [Message.Info([97]), Message.Info([98])];
    InfoReport(r.source);
    s := r.Report();
    assert s + [NL] == [97, NL, 98] + [NL];
    assert s == (s + [NL])[..|s|];
  }
}
