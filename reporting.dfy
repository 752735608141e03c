/**
  The reporter of src/reporter.rs: a handle onto a shared, append-only log
  of messages and a shared "an error was reported" flag, together with the
  source text the errors point into. Cloning a handle shares the log and the
  flag, so everything reported through any clone is seen by all of them.
  `report` renders the whole log as one string.
 */
module Reporting {
  import opened Text
  import opened Spans
  import opened Codes
  import opened Messages
  import opened SourceIndex

  /** An error's span must be one the reporter's `show_source` can render. */
  ghost predicate Reportable(src: SourceInfo, m: Message)
  {
    m.Error? && m.diag.loc.Some? ==> SpanFits(src, m.diag.loc.value)
  }

  ghost predicate AllReportable(src: SourceInfo, log: seq<Message>)
  {
    forall i :: 0 <= i < |log| ==> Reportable(src, log[i])
  }

  /**
    What `report` writes for one entry: an error's header and, when it has a
    span, the annotated source lines (without a locator line); an info
    message as itself and a newline (no `info: ` tag).
   */
  function RenderEntry(src: SourceInfo, m: Message): Bytes
    requires src.Valid() && Reportable(src, m)
  {
    match m
    case Error(d) =>
      Header(d) + (match d.loc
                   case Some(loc) => LinesText(src, loc, String)
                   case None => [])
    case Info(t) => t + [NL]
  }

  /** Every entry's rendering ends with a newline. */
  lemma EntryEndsWithNewline(src: SourceInfo, m: Message)
    requires src.Valid() && Reportable(src, m)
    ensures var r := RenderEntry(src, m); |r| > 0 && r[|r| - 1] == NL
  {
    match m {
      case Error(d) =>
        var h := Header(d);
        assert |h| > 0 && h[|h| - 1] == NL;
        if d.loc.Some? {
          LinesTextEndsWithNewline(src, d.loc.value, String);
        }
      case Info(t) =>
    }
  }

  /** The rendering of each entry, in log order. */
  function Entries(src: SourceInfo, log: seq<Message>): seq<Bytes>
    requires src.Valid() && AllReportable(src, log)
  {
    seq(|log|, i requires 0 <= i < |log| && Reportable(src, log[i]) => RenderEntry(src, log[i]))
  }

  /** The entries rendered one after another, oldest first. */
  function RenderLog(src: SourceInfo, log: seq<Message>): Bytes
    requires src.Valid() && AllReportable(src, log)
  {
    Concat(Entries(src, log))
  }

  lemma AllReportableAppend(src: SourceInfo, a: seq<Message>, b: seq<Message>)
    requires AllReportable(src, a) && AllReportable(src, b)
    ensures AllReportable(src, a + b)
  {
    forall i | 0 <= i < |a + b|
      ensures Reportable(src, (a + b)[i])
    {
      if i >= |a| {
        assert (a + b)[i] == b[i - |a|];
      }
    }
  }

  /** Appending one message appends its rendering. */
  lemma RenderLogSnoc(src: SourceInfo, log: seq<Message>, m: Message)
    requires src.Valid() && AllReportable(src, log) && Reportable(src, m)
    ensures AllReportable(src, log + [m])
    ensures RenderLog(src, log + [m]) == RenderLog(src, log) + RenderEntry(src, m)
  {
    RenderLogAppend(src, log, [m]);
    var single := Entries(src, [m]);
    assert single == [RenderEntry(src, m)];
    ConcatSnoc([], RenderEntry(src, m));
  }

  /** Rendering distributes over appending to the log: earlier output is never rewritten. */
  lemma RenderLogAppend(src: SourceInfo, a: seq<Message>, b: seq<Message>)
    requires src.Valid() && AllReportable(src, a) && AllReportable(src, b)
    ensures AllReportable(src, a + b)
    ensures RenderLog(src, a + b) == RenderLog(src, a) + RenderLog(src, b)
  {
    AllReportableAppend(src, a, b);
    var ea, eb, eab := Entries(src, a), Entries(src, b), Entries(src, a + b);
    forall i | 0 <= i < |eab|
      ensures eab[i] == (ea + eb)[i]
    {
      if i < |a| {
        assert (a + b)[i] == a[i];
      } else {
        assert (a + b)[i] == b[i - |a|];
      }
    }
    assert eab == ea + eb;
    ConcatAppend(ea, eb);
  }

  /** One more entry of `log` rendered extends the rendering of the prefix before it. */
  lemma RenderLogStep(src: SourceInfo, log: seq<Message>, i: nat)
    requires src.Valid() && AllReportable(src, log) && i < |log|
    ensures AllReportable(src, log[..i]) && AllReportable(src, log[..i + 1])
    ensures RenderLog(src, log[..i + 1]) == RenderLog(src, log[..i]) + RenderEntry(src, log[i])
  {
    assert Reportable(src, log[i]);
    assert log[..i + 1] == log[..i] + [log[i]];
    RenderLogSnoc(src, log[..i], log[i]);
  }

  /** A non-empty log renders to text ending in a newline, the character `report` pops. */
  lemma RenderLogEndsWithNewline(src: SourceInfo, log: seq<Message>)
    requires src.Valid() && AllReportable(src, log) && log != []
    ensures EndsWith(RenderLog(src, log), NL)
  {
    var e := Entries(src, log);
    EntryEndsWithNewline(src, log[|log| - 1]);
    assert Concat(e) == Concat(e[..|e| - 1]) + e[|e| - 1];
  }

  /** Info messages joined by newlines: what `report` returns for a log of only `info` calls. */
  function JoinLines(ts: seq<Bytes>): Bytes
  {
    if ts == [] then []
    else if |ts| == 1 then ts[0]
    else JoinLines(ts[..|ts| - 1]) + [NL] + ts[|ts| - 1]
  }

  function Infos(ts: seq<Bytes>): seq<Message>
  {
    seq(|ts|, i requires 0 <= i < |ts| => Info(ts[i]))
  }

  /** For info messages alone, the rendered log is the messages joined by newlines plus one final newline. */
  lemma {:induction false} RenderInfos(src: SourceInfo, ts: seq<Bytes>)
    requires src.Valid() && ts != []
    ensures AllReportable(src, Infos(ts))
    ensures RenderLog(src, Infos(ts)) == JoinLines(ts) + [NL]
    decreases |ts|
  {
    var log := Infos(ts);
    var ts', t := ts[..|ts| - 1], ts[|ts| - 1];
    assert log == Infos(ts') + [Message.Info(t)];
    RenderLogSnoc(src, Infos(ts'), Message.Info(t));
    if |ts| > 1 {
      RenderInfos(src, ts');
    } else {
      assert Infos(ts') == [];
    }
  }

  /** The log behind `ReporterOutput`: one per reporter family, shared by all clones. */
  class ReporterOutput {
    var log: seq<Message>

    constructor()
      ensures log == []
    {
      log := [];
    }
  }

  /** The shared `Cell<bool>` recording that `error` was called. */
  class Flag {
    var value: bool

    constructor()
      ensures !value
    {
      value := false;
    }
  }

  class Reporter {
    const out: ReporterOutput
    const errored: Flag
    const source: SourceInfo

    ghost predicate Valid()
    {
      source.Valid()
    }

    /** `Reporter::new`: an empty log, the flag down, the text indexed. */
    constructor(text: Bytes)
      ensures Valid()
      ensures source.text == text && source.name == None
      ensures fresh(out) && fresh(errored)
      ensures out.log == [] && !errored.value
    {
      var si := NewSourceInfo(None, text);
      out := new ReporterOutput();
      errored := new Flag();
      source := si;
    }

    /** The handle `clone` builds: the same log, flag and source. */
    constructor Share(out: ReporterOutput, errored: Flag, source: SourceInfo)
      ensures this.out == out && this.errored == errored && this.source == source
    {
      this.out := out;
      this.errored := errored;
      this.source := source;
    }

    /** `#[derive(Clone)]`: the clone shares this handle's log, flag and source. */
    method Clone() returns (r: Reporter)
      ensures fresh(r)
      ensures r.out == out && r.errored == errored && r.source == source
    {
      r := new Reporter.Share(out, errored, source);
    }

    /** `errored`: whether `error` was called on this handle or any clone. */
    method Errored() returns (b: bool)
      ensures b == errored.value
    {
      b := errored.value;
    }

    /** `error`: raises the flag and logs an error with a span. */
    method Error(loc: Loc, code: ErrorDesc, message: Bytes)
      modifies out, errored
      ensures errored.value
      ensures out.log == old(out.log) + [Message.Error(Diagnostic(code, Some(loc), message))]
    {
      errored.value := true;
      ErrorOptionLoc(Some(loc), code, message);
    }

    /** `error_unknown_loc`: logs an error without a span; the flag is left alone. */
    method ErrorUnknownLoc(code: ErrorDesc, message: Bytes)
      modifies out
      ensures errored.value == old(errored.value)
      ensures out.log == old(out.log) + [Message.Error(Diagnostic(code, None, message))]
    {
      ErrorOptionLoc(None, code, message);
    }

    /** `error_option_loc`: logs an error; only `error` raises the flag. */
    method ErrorOptionLoc(loc: Option<Loc>, code: ErrorDesc, message: Bytes)
      modifies out
      ensures errored.value == old(errored.value)
      ensures out.log == old(out.log) + [Message.Error(Diagnostic(code, loc, message))]
    {
      var e := Diagnostic(code, loc, message);
      out.log := out.log + [Message.Error(e)];
    }

    /** `info`: logs an informational message; the flag is left alone. */
    method Info(message: Bytes)
      modifies out
      ensures errored.value == old(errored.value)
      ensures out.log == old(out.log) + [Message.Info(message)]
    {
      out.log := out.log + [Message.Info(message)];
    }

    /** The private `write_fmt`, the imperative form of `RenderEntry` for an error: its header line, then its source lines in `String` mode. */
    method WriteError(d: Diagnostic) returns (w: Bytes)
      requires Valid() && Reportable(source, Message.Error(d))
      ensures w == RenderEntry(source, Message.Error(d))
    {
      w := Header(d);
      match d.loc {
        case Some(loc) =>
          var lines := ShowLines(source, loc, String);
          w := w + lines;
        case None =>
      }
    }

    /** One turn of the `report` loop, the imperative form of `RenderEntry`: an error through `write_fmt`, an info message as a line of its own. */
    method WriteEntry(m: Message) returns (piece: Bytes)
      requires Valid() && Reportable(source, m)
      ensures piece == RenderEntry(source, m)
    {
      match m {
        case Error(d) =>
          piece := WriteError(d);
        case Info(t) =>
          piece := t + [NL];
      }
    }

    /** The `report` loop: every entry of `log` rendered, oldest first. */
    method RenderEntries(log: seq<Message>) returns (acc: Bytes)
      requires Valid() && AllReportable(source, log)
      ensures acc == RenderLog(source, log)
    {
      acc := [];
      var i := 0;
      while i < |log|
        invariant 0 <= i <= |log|
        invariant AllReportable(source, log[..i])
        invariant acc == RenderLog(source, log[..i])
      {
        var piece := WriteEntry(log[i]);
        RenderLogStep(source, log, i);
        acc := acc + piece;
        i := i + 1;
      }
      assert log[..i] == log;
    }

    /**
      `report`: every entry rendered in order, then the last character
      popped. The popped character is the final entry's newline, so the
      result followed by a newline is exactly the rendered log.
     */
    method Report() returns (s: Bytes)
      requires Valid() && AllReportable(source, out.log)
      ensures out.log == [] ==> s == []
      ensures out.log != [] ==> s + [NL] == RenderLog(source, out.log)
    {
      var acc := RenderEntries(out.log);
      if out.log != [] {
        RenderLogEndsWithNewline(source, out.log);
      }
      s := if |acc| == 0 then acc else acc[..|acc| - 1];
    }
  }

  /**
    Two handles of one reporter family: an error without a span logged through
    the clone leaves the flag down, an error with a span raises it for both
    handles, and later info messages do not lower it. The shared log holds all
    three messages, in order.
   */
  method SharedHandles(text: Bytes, loc: Loc, code: ErrorDesc, message: Bytes)
    returns (before: bool, after: bool, log: seq<Message>)
    ensures !before && after
    ensures log == [Message.Error(Diagnostic(code, None, message)),
                    Message.Error(Diagnostic(code, Some(loc), message)),
                    Message.Info(message)]
  {
    var a := new Reporter(text);
    var b := a.Clone();
    b.ErrorUnknownLoc(code, message);
    before := a.Errored();
    b.Error(loc, code, message);
    a.Info(message);
    after := a.Errored();
    log := a.out.log;
  }
}
