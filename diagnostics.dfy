/**
 * The four flow variables the callout base class writes for diagnostics,
 * and the state of the message context after `setExceptionVariables` and
 * after `log`, stated on the context's variable map.
 */
module Diagnostics {
  import opened Wrappers
  import opened JavaText
  import opened CommonErrors
  import opened MessageContexts

  const ErrorSlot: string := "callout_error"
  const ExceptionSlot: string := "callout_exception"
  const StackTraceSlot: string := "callout_exception_stacktrace"
  const LogSlot: string := "callout_log"

  /** The variables `setExceptionVariables` writes. */
  predicate IsExceptionSlot(name: string) {
    name == ExceptionSlot || name == StackTraceSlot || name == ErrorSlot
  }

  /**
   * The variables after an exception with text `exceptionText` (its
   * `toString()`) and stack trace `stackTrace` is recorded: the text with
   * line feeds flattened, the trace, and the error summary of the
   * flattened text. Every other variable is kept.
   */
  function WithException(vars: map<string, string>, exceptionText: string, stackTrace: string): (r: map<string, string>)
    ensures r.Keys == vars.Keys + {ExceptionSlot, StackTraceSlot, ErrorSlot}
    ensures forall name :: name in vars && !IsExceptionSlot(name) ==> r[name] == vars[name]
  {
    var flat := ReplaceNewlines(exceptionText);
    vars[ExceptionSlot := flat][StackTraceSlot := stackTrace][ErrorSlot := ErrorSummary(flat)]
  }

  /**
   * The recorded exception text is on one line, and the recorded error is
   * a nonempty-when-possible tail of it: the message after the label, or
   * all of it.
   */
  lemma ExceptionRecord(vars: map<string, string>, exceptionText: string, stackTrace: string)
    ensures var r := WithException(vars, exceptionText, stackTrace);
      |r[ExceptionSlot]| == |exceptionText| &&
      '\n' !in r[ExceptionSlot] &&
      r[StackTraceSlot] == stackTrace &&
      r[ErrorSlot] == r[ExceptionSlot][|r[ExceptionSlot]| - |r[ErrorSlot]|..] &&
      (r[ErrorSlot] == "" <==> exceptionText == "")
  {
    var r := WithException(vars, exceptionText, stackTrace);
    var flat := ReplaceNewlines(exceptionText);
    assert r[ExceptionSlot] == flat;
    assert r[ErrorSlot] == ErrorSummary(flat);
  }

  /** Recording a second exception replaces every trace of the first. */
  lemma WithExceptionOverwrites(vars: map<string, string>, text1: string, trace1: string, text2: string, trace2: string)
    ensures WithException(WithException(vars, text1, trace1), text2, trace2) == WithException(vars, text2, trace2)
  {
    var flat1, flat2 := ReplaceNewlines(text1), ReplaceNewlines(text2);
    UpdatedThreeTwice(vars, ExceptionSlot, StackTraceSlot, ErrorSlot,
                      flat1, trace1, ErrorSummary(flat1), flat2, trace2, ErrorSummary(flat2));
  }

  /** Writing the same three keys again hides the first three writes. */
  lemma UpdatedThreeTwice<V>(m: map<string, V>, k1: string, k2: string, k3: string,
                             a1: V, b1: V, c1: V, a2: V, b2: V, c2: V)
    ensures m[k1 := a1][k2 := b1][k3 := c1][k1 := a2][k2 := b2][k3 := c2] == m[k1 := a2][k2 := b2][k3 := c2]
  {
  }

  /**
   * An exception whose text is a label free of `:` and `;`, `": "`, and a
   * message, on one line, is recorded under its own text with the message
   * as the error.
   */
  lemma WithLabelledException(vars: map<string, string>, kind: string, msg: string, stackTrace: string)
    requires kind != "" && msg != ""
    requires ':' !in kind && ';' !in kind
    requires NoLineTerminator(kind) && NoLineTerminator(msg)
    ensures WithException(vars, kind + ": " + msg, stackTrace)[ExceptionSlot] == kind + ": " + msg
    ensures WithException(vars, kind + ": " + msg, stackTrace)[ErrorSlot] == msg
  {
    var text := kind + ": " + msg;
    assert text == kind + [':', ' '] + msg;
    NoLineTerminatorJoined(kind, [':', ' ']);
    NoLineTerminatorJoined(kind + [':', ' '], msg);
    ReplaceNewlinesWithout(text);
    ErrorSummaryOfLabelled(kind, ':', msg);
  }

  /** One log line: the statement, two tabs, and the call site ("" when unknown). */
  function LogEntry(statement: string, callSite: string): (r: string)
    ensures |r| == |statement| + 2 + |callSite|
    ensures r[..|statement|] == statement && r[|statement|..|statement| + 2] == "\t\t"
    ensures r[|statement| + 2..] == callSite
  {
    statement + "\t\t" + callSite
  }

  /** The variables after `log`: the entry is appended to `callout_log` after a line feed, or starts it. */
  function WithLogEntry(vars: map<string, string>, statement: string, callSite: string): (r: map<string, string>)
    ensures r.Keys == vars.Keys + {LogSlot}
    ensures forall name :: name in vars && name != LogSlot ==> r[name] == vars[name]
  {
    var previous := if LogSlot in vars then vars[LogSlot] + "\n" else "";
    vars[LogSlot := previous + LogEntry(statement, callSite)]
  }

  /** One call of `log`. */
  datatype LogCall = LogCall(statement: string, callSite: string)

  /** The variables after the calls of `log` in `calls`, in order. */
  function LogAll(vars: map<string, string>, calls: seq<LogCall>): map<string, string>
  {
    if calls == [] then vars
    else
      var last := calls[|calls| - 1];
      WithLogEntry(LogAll(vars, calls[..|calls| - 1]), last.statement, last.callSite)
  }

  /** The log lines that `calls` produce. */
  function Entries(calls: seq<LogCall>): (r: seq<string>)
    ensures |r| == |calls|
    ensures forall i :: 0 <= i < |calls| ==> r[i] == LogEntry(calls[i].statement, calls[i].callSite)
  {
    seq(|calls|, i requires 0 <= i < |calls| => LogEntry(calls[i].statement, calls[i].callSite))
  }

  /** Lines joined by single line feeds, in order. */
  function JoinLines(lines: seq<string>): string
  {
    if |lines| == 0 then ""
    else if |lines| == 1 then lines[0]
    else JoinLines(lines[..|lines| - 1]) + "\n" + lines[|lines| - 1]
  }

  /** The calls of `log` write `callout_log` and no other variable. */
  lemma {:induction false} LogAllKeepsOthers(vars: map<string, string>, calls: seq<LogCall>)
    ensures calls != [] ==> LogSlot in LogAll(vars, calls)
    ensures forall name :: name != LogSlot ==>
      (name in LogAll(vars, calls) <==> name in vars) &&
      (name in vars ==> LogAll(vars, calls)[name] == vars[name])
  {
    if calls != [] {
      LogAllKeepsOthers(vars, calls[..|calls| - 1]);
    }
  }

  /**
   * After any nonempty sequence of `log` calls, `callout_log` holds their
   * entries joined by single line feeds, in call order, after whatever it
   * held before and a line feed.
   */
  lemma {:induction false} LogAllJoins(vars: map<string, string>, calls: seq<LogCall>)
    requires calls != []
    ensures LogSlot in LogAll(vars, calls)
    ensures LogSlot !in vars ==> LogAll(vars, calls)[LogSlot] == JoinLines(Entries(calls))
    ensures LogSlot in vars ==> LogAll(vars, calls)[LogSlot] == vars[LogSlot] + "\n" + JoinLines(Entries(calls))
  {
    var n := |calls|;
    var last := calls[n - 1];
    var init := calls[..n - 1];
    var entry := LogEntry(last.statement, last.callSite);
    var before := LogAll(vars, init);
    assert LogAll(vars, calls) == WithLogEntry(before, last.statement, last.callSite);
    if n == 1 {
      assert before == vars;
      assert Entries(calls) == [entry];
    } else {
      LogAllJoins(vars, init);
      var lines := Entries(calls);
      assert lines[..n - 1] == Entries(init);
      JoinLinesSnoc(lines);
      if LogSlot in vars {
        LinesRegroup(vars[LogSlot], JoinLines(Entries(init)), entry);
      }
    }
  }

  /** A line feed between earlier text and joined lines regroups freely. */
  lemma LinesRegroup(previous: string, joined: string, entry: string)
    ensures previous + "\n" + joined + "\n" + entry == previous + "\n" + (joined + "\n" + entry)
  {
  }

  /** Joining ends with the last line after a line feed. */
  lemma JoinLinesSnoc(lines: seq<string>)
    requires |lines| >= 2
    ensures JoinLines(lines) == JoinLines(lines[..|lines| - 1]) + "\n" + lines[|lines| - 1]
  {
  }

  /** `setExceptionVariables` on the context: the three slots are written in the source's order. */
  method RecordException(ctx: MessageContext, exceptionText: string, stackTrace: string)
    modifies ctx
    ensures ctx.variables == WithException(old(ctx.variables), exceptionText, stackTrace)
  {
    var error := ReplaceNewlines(exceptionText);
    ctx.SetVariable(ExceptionSlot, error);
    ctx.SetVariable(StackTraceSlot, stackTrace);
    var matched := MatchCommonError(error);
    if matched.Some? {
      ctx.SetVariable(ErrorSlot, matched.value);
    } else {
      ctx.SetVariable(ErrorSlot, error);
    }
  }

  /** `log` on the context: read the previous log, then overwrite it with the longer one. */
  method AppendLog(ctx: MessageContext, statement: string, callSite: string)
    modifies ctx
    ensures ctx.variables == WithLogEntry(old(ctx.variables), statement, callSite)
  {
    var logMessage := statement + "\t\t" + callSite;
    var previous := ctx.GetVariable(LogSlot);
    var prevLogs := if previous.None? then "" else previous.value + "\n";
    ctx.SetVariable(LogSlot, prevLogs + logMessage);
  }
}
