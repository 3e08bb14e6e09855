/**
 * The error summary stored in `callout_error`: the exception text is matched
 * as a whole against `^(.+?)[:;] (.+)$` and, when it matches, group 2 (the
 * message after the label) is kept; otherwise the whole text is kept.
 */
module CommonErrors {
  import opened Wrappers
  import opened JavaText

  /**
   * A `:` or `;` followed by a space at `i` that the pattern can use: group 1
   * `(.+?)` needs at least one character before it and group 2 `(.+)` at
   * least one after the space.
   */
  predicate IsSeparatorAt(e: string, i: int) {
    1 <= i && i + 2 < |e| && (e[i] == ':' || e[i] == ';') && e[i + 1] == ' '
  }

  /** The first usable separator at or after `i`; the lazy group 1 stops there. */
  function FirstSeparator(e: string, i: nat): (r: Option<nat>)
    ensures r.Some? ==> i <= r.value && IsSeparatorAt(e, r.value)
    decreases |e| - i
  {
    if i + 2 >= |e| then None
    else if IsSeparatorAt(e, i) then Some(i)
    else FirstSeparator(e, i + 1)
  }

  /** FirstSeparator skips no usable separator, and fails only when there is none. */
  lemma {:induction false} FirstSeparatorIsFirst(e: string, i: nat)
    ensures FirstSeparator(e, i).None? ==> forall m :: i <= m ==> !IsSeparatorAt(e, m)
    ensures FirstSeparator(e, i).Some? ==> forall m :: i <= m < FirstSeparator(e, i).value ==> !IsSeparatorAt(e, m)
    decreases |e| - i
  {
    if i + 2 < |e| && !IsSeparatorAt(e, i) {
      FirstSeparatorIsFirst(e, i + 1);
    }
  }

  /**
   * `matcher.matches()` and `group(2)`. `.` refuses line terminators and
   * `matches()` must consume the whole input, so any line terminator makes
   * the match fail; otherwise group 2 is the text after the first usable
   * separator.
   */
  function MatchCommonError(e: string): (r: Option<string>)
    ensures r.Some? ==> 0 < |r.value| <= |e| - 3 && r.value == e[|e| - |r.value|..]
  {
    if !NoLineTerminator(e) then None
    else
      match FirstSeparator(e, 1)
      case None => None
      case Some(i) => Some(e[i + 2..])
  }

  /**
   * The pattern matches exactly when the text has no line terminator and
   * a usable separator; group 2 is then the nonempty text after the first one.
   */
  lemma MatchCommonErrorSpec(e: string)
    ensures MatchCommonError(e).Some? <==> NoLineTerminator(e) && exists i :: IsSeparatorAt(e, i)
    ensures MatchCommonError(e).Some? ==>
      exists i :: IsSeparatorAt(e, i) && MatchCommonError(e).value == e[i + 2..] &&
        (forall m :: m < i ==> !IsSeparatorAt(e, m))
    ensures MatchCommonError(e).Some? ==> MatchCommonError(e).value != ""
  {
    FirstSeparatorIsFirst(e, 1);
  }

  /** What `setExceptionVariables` stores in `callout_error` for the text `e`. */
  function ErrorSummary(e: string): (r: string)
    ensures |r| <= |e| && r == e[|e| - |r|..]
    ensures r != "" <==> e != ""
  {
    match MatchCommonError(e)
    case Some(msg) => msg
    case None => e
  }

  /**
   * A head free of `:` and `;`, a `": "` or `"; "`, and a nonempty
   * message, all on one line: the summary is the message.
   */
  lemma ErrorSummaryOfLabelled(head: string, sep: char, msg: string)
    requires head != "" && msg != ""
    requires ':' !in head && ';' !in head
    requires sep == ':' || sep == ';'
    requires NoLineTerminator(head) && NoLineTerminator(msg)
    ensures ErrorSummary(head + [sep, ' '] + msg) == msg
  {
    var e := head + [sep, ' '] + msg;
    NoLineTerminatorJoined(head, [sep, ' ']);
    NoLineTerminatorJoined(head + [sep, ' '], msg);
    var i := |head|;
    assert IsSeparatorAt(e, i);
    forall m | 1 <= m < i ensures !IsSeparatorAt(e, m) {
      assert e[m] == head[m];
    }
    FirstSeparatorIsFirst(e, 1);
    assert FirstSeparator(e, 1) == Some(i);
    assert e[i + 2..] == msg;
  }

  /** Text without a usable separator is kept whole. */
  lemma ErrorSummaryWithoutSeparator(e: string)
    requires forall i :: !IsSeparatorAt(e, i)
    ensures ErrorSummary(e) == e
  {
    MatchCommonErrorSpec(e);
  }

  /**
   * A line terminator anywhere, such as the `\r` of a `\r\n` line end that
   * survives the `\n` replacement, makes the whole text the summary.
   */
  lemma ErrorSummaryWithLineTerminator(e: string, i: nat)
    requires i < |e| && IsLineTerminator(e[i])
    ensures ErrorSummary(e) == e
  {
  }

  /** The exception of the base-class test is summarised to its message. */
  lemma ErrorSummaryOfPlainException(kind: string, msg: string)
    requires kind == "java.lang.Exception" && msg == "test"
    ensures ErrorSummary(kind + ": " + msg) == msg
  {
    assert kind + ": " + msg == kind + [':', ' '] + msg;
    ErrorSummaryOfLabelled(kind, ':', msg);
  }

  /** The exception thrown by the sample callout is summarised to its message. */
  lemma ErrorSummaryOfRuntimeException(kind: string, msg: string)
    requires kind == "java.lang.RuntimeException" && msg == "test exception"
    ensures ErrorSummary(kind + ": " + msg) == msg
  {
    assert kind + ": " + msg == kind + [':', ' '] + msg;
    ErrorSummaryOfLabelled(kind, ':', msg);
  }
}
