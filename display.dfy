/**
  Rendering whole messages (src/display.rs): `write_fmt` writes one message,
  `extract_report_to` writes a sequence of them. The source takes the
  messages from `Reporter::poll`, which the reporter in src/reporter.rs does
  not define; here the messages are passed in.
 */
module Display {
  import opened Text
  import opened Messages
  import opened SourceIndex

  /** An error's span must be one `show_source` can render. */
  ghost predicate Renderable(si: SourceInfo, m: Message, options: DisplayOptions)
  {
    m.Error? && m.diag.loc.Some? ==> Showable(si, m.diag.loc.value, options)
  }

  /** `write_fmt`: `error[short]: message` and the source block when there is a span; `info: m` otherwise. */
  function WriteFmt(si: SourceInfo, m: Message, options: DisplayOptions): Bytes
    requires si.Valid() && Renderable(si, m, options)
  {
    match m
    case Error(d) =>
      Header(d) + (match d.loc
                   case Some(loc) => ShowSourceText(si, loc, options)
                   case None => [])
    case Info(t) => INFO_TAG + t + [NL]
  }

  /**
    A rendered message starts with its kind's tag, `error[` or `info: ` (the
    two differ in their first byte), and ends with a newline.
   */
  lemma WriteFmtShape(si: SourceInfo, m: Message, options: DisplayOptions)
    requires si.Valid() && Renderable(si, m, options)
    ensures EndsWith(WriteFmt(si, m, options), NL)
    ensures StartsWith(WriteFmt(si, m, options), if m.Error? then ERROR_OPEN else INFO_TAG)
  {
    match m {
      case Error(d) =>
        ErrorShape(si, d, options);
      case Info(t) =>
        var r := WriteFmt(si, m, options);
        assert r == INFO_TAG + t + [NL];
        assert r[..|INFO_TAG|] == INFO_TAG;
    }
  }

  lemma ErrorShape(si: SourceInfo, d: Diagnostic, options: DisplayOptions)
    requires si.Valid() && Renderable(si, Message.Error(d), options)
    ensures StartsWith(WriteFmt(si, Message.Error(d), options), ERROR_OPEN)
    ensures EndsWith(WriteFmt(si, Message.Error(d), options), NL)
  {
    var h := Header(d);
    assert h[..|ERROR_OPEN|] == ERROR_OPEN;
    assert EndsWith(h, NL);
    match d.loc {
      case Some(loc) =>
        var rest := ShowSourceText(si, loc, options);
        assert WriteFmt(si, Message.Error(d), options) == h + rest;
        LinesTextEndsWithNewline(si, loc, options);
        assert rest == Locator(si, loc) + LinesText(si, loc, options);
        assert EndsWith(rest, NL);
        assert (h + rest)[..|ERROR_OPEN|] == h[..|ERROR_OPEN|];
      case None =>
        assert WriteFmt(si, Message.Error(d), options) == h + [];
    }
  }

  /** The block of each message, in order. */
  function Renderings(si: SourceInfo, msgs: seq<Message>, options: DisplayOptions): seq<Bytes>
    requires si.Valid() && forall i :: 0 <= i < |msgs| ==> Renderable(si, msgs[i], options)
  {
    seq(|msgs|, i requires 0 <= i < |msgs| && Renderable(si, msgs[i], options) => WriteFmt(si, msgs[i], options))
  }

  /** What `extract_report_to` writes: each message's block, in order. */
  function RenderAll(si: SourceInfo, msgs: seq<Message>, options: DisplayOptions): Bytes
    requires si.Valid() && forall i :: 0 <= i < |msgs| ==> Renderable(si, msgs[i], options)
  {
    Concat(Renderings(si, msgs, options))
  }

  /** Rendering a batch is rendering its parts one after the other. */
  lemma RenderAllAppend(si: SourceInfo, a: seq<Message>, b: seq<Message>, options: DisplayOptions)
    requires si.Valid()
    requires forall i :: 0 <= i < |a| ==> Renderable(si, a[i], options)
    requires forall i :: 0 <= i < |b| ==> Renderable(si, b[i], options)
    ensures forall i :: 0 <= i < |a + b| ==> Renderable(si, (a + b)[i], options)
    ensures RenderAll(si, a + b, options) == RenderAll(si, a, options) + RenderAll(si, b, options)
  {
    var ra, rb, rab := Renderings(si, a, options), Renderings(si, b, options), Renderings(si, a + b, options);
    forall i | 0 <= i < |rab|
      ensures rab[i] == (ra + rb)[i]
    {
      if i < |a| {
        assert (a + b)[i] == a[i];
      } else {
        assert (a + b)[i] == b[i - |a|];
      }
    }
    assert rab == ra + rb;
    ConcatAppend(ra, rb);
  }

  /** `extract_report_to`: writes every message in turn. */
  method ExtractReportTo(si: SourceInfo, msgs: seq<Message>, options: DisplayOptions) returns (out: Bytes)
    requires si.Valid() && forall i :: 0 <= i < |msgs| ==> Renderable(si, msgs[i], options)
    ensures out == RenderAll(si, msgs, options)
  {
    out := [];
    var i := 0;
    while i < |msgs|
      invariant i <= |msgs|
      invariant out == Concat(Renderings(si, msgs, options)[..i])
    {
      var block := WriteMessage(si, msgs[i], options);
      assert Renderings(si, msgs, options)[..i + 1][..i] == Renderings(si, msgs, options)[..i];
      out := out + block;
      i := i + 1;
    }
    assert Renderings(si, msgs, options)[..i] == Renderings(si, msgs, options);
  }

  /** `write_fmt`, the imperative form of `WriteFmt`: the header, then `show_source` when there is a span. */
  method WriteMessage(si: SourceInfo, m: Message, options: DisplayOptions) returns (out: Bytes)
    requires si.Valid() && Renderable(si, m, options)
    ensures out == WriteFmt(si, m, options)
  {
    match m {
      case Error(d) =>
        out := Header(d);
        if d.loc.Some? {
          var block := ShowSource(si, d.loc.value, options);
          out := out + block;
        }
      case Info(t) =>
        out := INFO_TAG + t + [NL];
    }
  }

  /** `extract_report_to_string`: the same in String mode. */
  method ExtractReportToString(si: SourceInfo, msgs: seq<Message>) returns (out: Bytes)
    requires si.Valid() && forall i :: 0 <= i < |msgs| ==> Renderable(si, msgs[i], String)
    ensures out == RenderAll(si, msgs, String)
  {
    out := ExtractReportTo(si, msgs, String);
  }

  /** Rendering something non-empty produces something non-empty. */
  lemma RenderAllNonEmpty(si: SourceInfo, msgs: seq<Message>, options: DisplayOptions)
    requires si.Valid() && forall i :: 0 <= i < |msgs| ==> Renderable(si, msgs[i], options)
    requires msgs != []
    ensures |RenderAll(si, msgs, options)| > 0
  {
    var r := Renderings(si, msgs, options);
    WriteFmtShape(si, msgs[|msgs| - 1], options);
    assert Concat(r) == Concat(r[..|r| - 1]) + r[|r| - 1];
  }

  /**
    What `extract_report_to_io` hands to the writer as written: its buffer is
    never cleared, so after each message it writes everything rendered so far.
   */
  function BufferedWrites(si: SourceInfo, msgs: seq<Message>, options: DisplayOptions): Bytes
    requires si.Valid() && forall i :: 0 <= i < |msgs| ==> Renderable(si, msgs[i], options)
  {
    if msgs == [] then []
    else BufferedWrites(si, msgs[..|msgs| - 1], options) + RenderAll(si, msgs, options)
  }

  /**
    The as-written output is the rendered report exactly when there is at
    most one message; from two messages on, earlier messages are written
    again (the output is strictly longer).
   */
  lemma BufferedWritesRepeat(si: SourceInfo, msgs: seq<Message>, options: DisplayOptions)
    requires si.Valid() && forall i :: 0 <= i < |msgs| ==> Renderable(si, msgs[i], options)
    ensures |msgs| <= 1 ==> BufferedWrites(si, msgs, options) == RenderAll(si, msgs, options)
    ensures |msgs| >= 2 ==> |BufferedWrites(si, msgs, options)| > |RenderAll(si, msgs, options)|
  {
    if |msgs| >= 2 {
      BufferedWritesLonger(si, msgs, options);
    } else if |msgs| == 1 {
      assert msgs[..0] == [];
    }
  }

  lemma BufferedWritesLonger(si: SourceInfo, msgs: seq<Message>, options: DisplayOptions)
    requires si.Valid() && forall i :: 0 <= i < |msgs| ==> Renderable(si, msgs[i], options)
    requires |msgs| >= 2
    ensures |BufferedWrites(si, msgs, options)| > |RenderAll(si, msgs, options)|
  {
    var front := msgs[..|msgs| - 1];
    BufferedWritesCoversLast(si, front, options);
    assert BufferedWrites(si, msgs, options) == BufferedWrites(si, front, options) + RenderAll(si, msgs, options);
  }

  /** The as-written output of a non-empty batch ends with the whole batch rendered. */
  lemma BufferedWritesCoversLast(si: SourceInfo, msgs: seq<Message>, options: DisplayOptions)
    requires si.Valid() && forall i :: 0 <= i < |msgs| ==> Renderable(si, msgs[i], options)
    requires msgs != []
    ensures |BufferedWrites(si, msgs, options)| >= |RenderAll(si, msgs, options)| > 0
  {
    RenderAllNonEmpty(si, msgs, options);
  }

  /** One message more extends the rendering by that message's block. */
  lemma RenderAllSnoc(si: SourceInfo, msgs: seq<Message>, i: nat, options: DisplayOptions)
    requires si.Valid() && forall j :: 0 <= j < |msgs| ==> Renderable(si, msgs[j], options)
    requires i < |msgs|
    ensures RenderAll(si, msgs[..i + 1], options) == RenderAll(si, msgs[..i], options) + WriteFmt(si, msgs[i], options)
  {
    var front, all := Renderings(si, msgs[..i], options), Renderings(si, msgs[..i + 1], options);
    forall j | 0 <= j < |all|
      ensures all[j] == (front + [WriteFmt(si, msgs[i], options)])[j]
    {
      assert msgs[..i + 1][j] == msgs[j];
    }
    assert all == front + [WriteFmt(si, msgs[i], options)];
    ConcatSnoc(front, WriteFmt(si, msgs[i], options));
  }

  /** `extract_report_to_io` as written: the buffer accumulates and is written whole after each message. */
  method ExtractReportToIoAsWritten(si: SourceInfo, msgs: seq<Message>, options: DisplayOptions)
    returns (written: Bytes)
    requires si.Valid() && forall i :: 0 <= i < |msgs| ==> Renderable(si, msgs[i], options)
    ensures written == BufferedWrites(si, msgs, options)
  {
    var buf: Bytes := [];
    written := [];
    var i := 0;
    while i < |msgs|
      invariant i <= |msgs|
      invariant buf == RenderAll(si, msgs[..i], options)
      invariant written == BufferedWrites(si, msgs[..i], options)
    {
      var block := WriteMessage(si, msgs[i], options);
      RenderAllSnoc(si, msgs, i, options);
      assert msgs[..i + 1][..i] == msgs[..i];
      buf := buf + block;
      written := written + buf;
      i := i + 1;
    }
    assert msgs[..i] == msgs;
  }

  /** `extract_report_to_io` with the buffer cleared after each write: every message is written once, in order. */
  method ExtractReportToIo(si: SourceInfo, msgs: seq<Message>, options: DisplayOptions) returns (written: Bytes)
    requires si.Valid() && forall i :: 0 <= i < |msgs| ==> Renderable(si, msgs[i], options)
    ensures written == RenderAll(si, msgs, options)
  {
    written := [];
    var i := 0;
    while i < |msgs|
      invariant i <= |msgs|
      invariant written == RenderAll(si, msgs[..i], options)
    {
      var buf := WriteMessage(si, msgs[i], options);
      RenderAllSnoc(si, msgs, i, options);
      written := written + buf;
      i := i + 1;
    }
    assert msgs[..i] == msgs;
  }
}
