# Apigee Java callout base class, modelled in Dafny

The callout base class is a set of helpers that Apigee Java callouts inherit. Each helper works on a string-keyed
message context of flow variables. This project models three things and proves properties of the model:

- **Variable-reference resolver** (`resolveVariableReferences`). It replaces every `{name}` or `{name:default}` in a
  text with the flow variable's value. If the variable is unset, it uses the default. If there is no default either,
  it uses nothing.
- **Property accessors** (`getOptionalProperty`, `getRequiredProperty`). A configured property is trimmed, then
  resolved. An empty result counts as absent.
- **Diagnostics recorder** (`setExceptionVariables`, `log`). It writes `callout_exception`,
  `callout_exception_stacktrace`, `callout_error` and `callout_log`.

The helpers exist in three copies, and each copy has its own Dafny class:

- `CalloutBase`, the current library class.
- `CalloutsBase`, an older variant. It returns `null` instead of `Optional`. Its required-property failures carry a
  message.
- The copy of `CalloutBase` embedded in the exception sample callout.

The classes share one engine:

- `JavaText`: the `String` operations the source relies on. These are `trim()`, `replaceAll("\n", " ")` and
  `split(":", 2)`, plus the line terminators that a regex `.` refuses.
- `MessageContexts.MessageContext`: a class whose `variables` map the methods update in place.
- `VariableReferences`:
  - the specification function `Resolve`, which finds the leftmost placeholder, substitutes it, and resumes after it;
  - the imperative `find()`/`appendReplacement`/`appendTail` loop, proved equal to `Resolve`;
  - lemmas for the syntax rules.
- `CommonErrors`: the whole-input match of `^(.+?)[:;] (.+)$` that picks the error summary.
- `Diagnostics`: the context after recording an exception and after logging. It also has the imperative methods that
  write the slots, and the fold over any number of `log` calls.
- `PropertyAccess`: the property accessors of both styles.

The source regular expressions are modelled as scanners with Java's `find()` and `matches()` semantics:

- A placeholder is `{`, then one character other than `{`, `}`, space or `:`, then characters other than `{`, `}` or
  space, then `}`. A line terminator may appear inside a reference, because the negated character classes accept it.
- Group 1 `(.*?)` cannot cross a line terminator. So a match may start later than where the search resumed;
  `MatchStart` computes where. `appendReplacement` and group 1 together still copy all text before the brace.
- The error pattern is matched with `matches()`. A line terminator anywhere in the text means no match. This includes
  a `\r` that survives the `\n` → space replacement. The summary is then the whole text.

Where the system's documented behaviour and the code differ, the model follows the code:

- `CalloutBase.getRequiredProperty` throws an `IllegalArgumentException` without a message. Only `CalloutsBase` names
  the key and the reason.
- All three copies drop an unset placeholder without a default (they resolve it to ""). None keeps it literally.
- The error summary needs at least one character before the separator and one after the space. The whole text must
  also be free of line terminators.
- A `null` exception is not handled specially. The exception's text is an input of the model.

## Model

| member | source | states |
|---|---|---|
| JavaText.Trim | baseclass/src/main/java/com/google/apigee/calloutbaseclass/CalloutBase.java:69 | `trim()` result is empty exactly when every character is ≤ U+0020, and otherwise starts and ends with a kept character |
| JavaText.TrimUnpads | baseclass/src/main/java/com/google/apigee/calloutbaseclass/CalloutBase.java:69 | trimming removes any padding of characters ≤ U+0020 around a core that does not start or end with one |
| JavaText.TrimIdempotent | baseclass/src/main/java/com/google/apigee/calloutbaseclass/CalloutBase.java:69 | trimming twice is trimming once |
| JavaText.TrimLacks | baseclass/src/main/java/com/google/apigee/calloutbaseclass/CalloutBase.java:69 | trimming only removes characters: a character absent from the text is absent from its trimmed form |
| JavaText.ReplaceNewlines | baseclass/src/main/java/com/google/apigee/calloutbaseclass/CalloutBase.java:125 | `replaceAll("\n", " ")` keeps the length and turns exactly the line feeds into spaces |
| JavaText.ReplaceNewlinesWithout | baseclass/src/main/java/com/google/apigee/calloutbaseclass/CalloutBase.java:125 | text on one line is left unchanged |
| JavaText.IndexOfFinds | baseclass/src/main/java/com/google/apigee/calloutbaseclass/CalloutBase.java:105 | the search finds the first occurrence of the separator, and finds none only when none exists |
| JavaText.SplitOnce | baseclass/src/main/java/com/google/apigee/calloutbaseclass/CalloutBase.java:105 | `split(":", 2)` as a pair: the text before the first `:` and, when there is one, the text after it; `SplitOnceParts` and `SplitOnceOfJoined` state what the two parts are |
| JavaText.SplitOnceParts | baseclass/src/main/java/com/google/apigee/calloutbaseclass/CalloutBase.java:105 | `split(":", 2)` gives one part exactly when there is no `:`; otherwise the text is the colon-free head, `:`, and the rest |
| JavaText.SplitOnceOfJoined | baseclass/src/main/java/com/google/apigee/calloutbaseclass/CalloutBase.java:105 | splitting `head:tail` with a colon-free head gives back head and tail, whatever colons tail holds |
| MessageContexts.MessageContext.GetVariable | baseclass/test/java/com/google/apigee/calloutbaseclass/CalloutBaseTest.java:207-209 | a variable is present exactly when it is set, with its stored value |
| MessageContexts.MessageContext.SetVariable | baseclass/test/java/com/google/apigee/calloutbaseclass/CalloutBaseTest.java:212-215 | setting a variable stores the value under that name and changes no other variable |
| VariableReferences.PlaceholderCloseUnique | baseclass/src/main/java/com/google/apigee/calloutbaseclass/CalloutBase.java:40-41 | a placeholder that opens at a brace closes at exactly one place |
| VariableReferences.ReferenceEndStops | baseclass/src/main/java/com/google/apigee/calloutbaseclass/CalloutBase.java:40-41 | the reference scan runs over reference characters and stops at the first character a reference cannot hold |
| VariableReferences.PlaceholderEndFinds | baseclass/src/main/java/com/google/apigee/calloutbaseclass/CalloutBase.java:40-41 | the closing brace computed for an opening brace is exactly the placeholder's close, and there is none when no placeholder opens there |
| VariableReferences.FindPlaceholder | baseclass/src/main/java/com/google/apigee/calloutbaseclass/CalloutBase.java:101 | `matcher.find()` resumed at `from`: a found placeholder opens at or after `from` and closes, after at least one reference character, inside the text; `FindPlaceholderFinds` and `FindPlaceholderIs` show it is the leftmost one |
| VariableReferences.FindPlaceholderFinds | baseclass/src/main/java/com/google/apigee/calloutbaseclass/CalloutBase.java:101 | `find()` returns a placeholder with none opening before it, and returns nothing only when no placeholder opens in the rest of the text |
| VariableReferences.FindPlaceholderIs | baseclass/src/main/java/com/google/apigee/calloutbaseclass/CalloutBase.java:101 | the leftmost placeholder is the one `find()` returns |
| VariableReferences.FindPlaceholderShifted | baseclass/src/main/java/com/google/apigee/calloutbaseclass/CalloutBase.java:101 | a search resumed inside a text finds the placeholder that a search of the rest of the text finds, at the same place: what precedes the resume point never changes the next match |
| VariableReferences.Resolve | baseclass/src/main/java/com/google/apigee/calloutbaseclass/CalloutBase.java:98-116 | the reference semantics: text before the leftmost placeholder is kept, the placeholder is substituted, and resolution continues after its closing brace; `ResolveVariableReferences` is proved to compute it, and the `Resolve…` lemmas below characterise it |
| VariableReferences.ResolveWithoutPlaceholder | baseclass/src/main/java/com/google/apigee/calloutbaseclass/CalloutBase.java:98-116 | text in which no placeholder opens is returned unchanged |
| VariableReferences.ResolveWithoutBrace | baseclass/test/java/com/google/apigee/calloutbaseclass/CalloutBaseTest.java:122-127 | text without `{`, such as a bare variable name, is returned unchanged |
| VariableReferences.ResolveWithoutCloseBrace | baseclass/src/main/java/com/google/apigee/calloutbaseclass/CalloutBase.java:40-41 | text with no `}` at all, so that no `{` can close, is returned unchanged |
| VariableReferences.ResolveKeepsBadStart | baseclass/src/main/java/com/google/apigee/calloutbaseclass/CalloutBase.java:40-41 | a `{` followed by `}`, a space, `:` or nothing (as in `{}`, `{ a}`, `{:a}`, a trailing `{`) opens nothing and stays as written |
| VariableReferences.ResolveBadStartThenPlaceholder | baseclass/src/main/java/com/google/apigee/calloutbaseclass/CalloutBase.java:101-114 | a `{` that opens nothing (as in `{}{a}` or `{ x}{a}`) stays literal beside a following placeholder, which is substituted |
| VariableReferences.ResolveNestedOpen | baseclass/src/main/java/com/google/apigee/calloutbaseclass/CalloutBase.java:40-41 | in `{a{b}` only `{b}` is a placeholder; `{a` is kept |
| VariableReferences.ResolveLiteralThenPlaceholder | baseclass/src/main/java/com/google/apigee/calloutbaseclass/CalloutBase.java:101-114 | literal text in which no placeholder opens (stray braces such as `{}` or `{ a}` included) is kept in place before a placeholder, the placeholder is substituted, and the rest resolves on its own |
| VariableReferences.ResolveTwoPlaceholders | baseclass/src/main/java/com/google/apigee/calloutbaseclass/CalloutBase.java:101-114 | every placeholder of a template is substituted, left to right, with the literal text between them, stray braces included, kept in order |
| VariableReferences.ResolveDoesNotRescan | baseclass/src/main/java/com/google/apigee/calloutbaseclass/CalloutBase.java:101-114 | a substituted value that itself looks like a placeholder is inserted verbatim, not resolved again |
| VariableReferences.ResolveLonePlaceholder | baseclass/test/java/com/google/apigee/calloutbaseclass/CalloutBaseTest.java:105-120 | a text that is a single placeholder resolves to that reference's substitution |
| VariableReferences.Substitution | baseclass/src/main/java/com/google/apigee/calloutbaseclass/CalloutBase.java:105-111 | what one reference contributes: the value of the variable named before the first `:` when it is set, else the text after that `:`, else nothing; `SubstitutionCases` states the three cases |
| VariableReferences.SubstitutionCases | baseclass/src/main/java/com/google/apigee/calloutbaseclass/CalloutBase.java:105-111 | a reference splits at its first `:`; a set variable wins over any default, else the default is used (further colons included), else nothing |
| VariableReferences.ResolveSinglePlaceholder | baseclass-samples/java-callouts-baseclass-exception/callout/src/main/java/BaseclassException.java:94-103 | `{name}` or `{name:default}` on its own yields the variable's value when set, else the default, else "" |
| VariableReferences.MatchStart | baseclass/src/main/java/com/google/apigee/calloutbaseclass/CalloutBase.java:40-41 | a `find()` match starts just after the last line terminator before the brace, or where the search resumed |
| VariableReferences.AppendMatch | baseclass/src/main/java/com/google/apigee/calloutbaseclass/CalloutBase.java:102-112 | one match appends the text since the last match, up to the brace, followed by the reference's substitution |
| VariableReferences.ResolvedSuffixStep | baseclass/src/main/java/com/google/apigee/calloutbaseclass/CalloutBase.java:101-112 | when the search resumed at a position finds a placeholder, the rest of the text resolves to the literal up to it, its substitution, then the resolution of the text after its closing brace |
| VariableReferences.ResolveBufferStep | baseclass/src/main/java/com/google/apigee/calloutbaseclass/CalloutBase.java:101-113 | the buffer plus what is left to resolve stays equal to the full resolution after each match |
| VariableReferences.ResolveVariableReferences | baseclass/src/main/java/com/google/apigee/calloutbaseclass/CalloutBase.java:98-116 | the buffer loop returns exactly `Resolve(spec, variables)` |
| CommonErrors.FirstSeparator | baseclass/src/main/java/com/google/apigee/calloutbaseclass/CalloutBase.java:36 | the lazy group 1 stops at a `:`/`;` followed by a space, with text before it and after the space |
| CommonErrors.FirstSeparatorIsFirst | baseclass/src/main/java/com/google/apigee/calloutbaseclass/CalloutBase.java:36 | that separator is the first usable one, and the search fails only when there is none |
| CommonErrors.MatchCommonError | baseclass/src/main/java/com/google/apigee/calloutbaseclass/CalloutBase.java:129-131 | `matches()` and `group(2)`: a match yields a nonempty proper tail of the text, at most its length minus three |
| CommonErrors.MatchCommonErrorSpec | baseclass/src/main/java/com/google/apigee/calloutbaseclass/CalloutBase.java:129-131 | the pattern matches exactly when the text is on one line and has a usable separator; group 2 is then the nonempty text after the first one |
| CommonErrors.ErrorSummary | baseclass/src/main/java/com/google/apigee/calloutbaseclass/CalloutBase.java:129-134 | the error summary is always a tail of the exception text, and it is empty only when that text is empty |
| CommonErrors.ErrorSummaryOfLabelled | baseclass/src/main/java/com/google/apigee/calloutbaseclass/CalloutBase.java:33-36 | for `label: message` or `label; message` on one line, with no `:`/`;` in the label, the summary is the message |
| CommonErrors.ErrorSummaryWithoutSeparator | baseclass/src/main/java/com/google/apigee/calloutbaseclass/CalloutBase.java:132-134 | text without a usable separator is kept whole |
| CommonErrors.ErrorSummaryWithLineTerminator | baseclass/src/main/java/com/google/apigee/calloutbaseclass/CalloutBase.java:125-134 | text that still holds a line terminator, such as a `\r`, is kept whole |
| CommonErrors.ErrorSummaryOfPlainException | baseclass/test/java/com/google/apigee/calloutbaseclass/CalloutBaseTest.java:136-139 | "java.lang.Exception: test" is summarised to "test" |
| CommonErrors.ErrorSummaryOfRuntimeException | baseclass-samples/java-callouts-baseclass-exception/callout/src/main/java/BaseclassException.java:194-196 | "java.lang.RuntimeException: test exception" is summarised to "test exception" |
| Diagnostics.WithException | baseclass/src/main/java/com/google/apigee/calloutbaseclass/CalloutBase.java:124-135 | recording an exception adds exactly the three exception slots and keeps every other variable |
| Diagnostics.ExceptionRecord | baseclass/src/main/java/com/google/apigee/calloutbaseclass/CalloutBase.java:124-135 | the recorded text has no line feed and its original length; the trace is stored as given; the error is a tail of the recorded text and is empty only for empty text |
| Diagnostics.WithExceptionOverwrites | baseclass/src/main/java/com/google/apigee/calloutbaseclass/CalloutBase.java:124-135 | recording a second exception leaves no trace of the first |
| Diagnostics.WithLabelledException | baseclass/src/main/java/com/google/apigee/calloutbaseclass/CalloutBase.java:124-135 | for an exception `label: message` on one line, the exception slot holds that text and the error slot holds the message |
| Diagnostics.LogEntry | baseclass/src/main/java/com/google/apigee/calloutbaseclass/CalloutBase.java:154 | a log line is the statement, two tabs, then the call site |
| Diagnostics.WithLogEntry | baseclass/src/main/java/com/google/apigee/calloutbaseclass/CalloutBase.java:154-159 | logging sets `callout_log` and keeps every other variable |
| Diagnostics.LogAll | baseclass/src/main/java/com/google/apigee/calloutbaseclass/CalloutBase.java:154-159 | successive `log` calls, in order, each appending its entry; `LogAllKeepsOthers` and `LogAllJoins` state the result |
| Diagnostics.LogAllKeepsOthers | baseclass/src/main/java/com/google/apigee/calloutbaseclass/CalloutsBase.java:160-164 | any number of `log` calls write only `callout_log` |
| Diagnostics.LogAllJoins | baseclass/test/java/com/google/apigee/calloutbaseclass/CalloutBaseTest.java:170-188 | after n calls the log holds the n entries joined by single line feeds, in call order, after any earlier log and a line feed |
| Diagnostics.RecordException | baseclass/src/main/java/com/google/apigee/calloutbaseclass/CalloutBase.java:124-135 | the slot writes leave the context in the state `WithException` describes |
| Diagnostics.AppendLog | baseclass/src/main/java/com/google/apigee/calloutbaseclass/CalloutBase.java:143-160 | reading then overwriting `callout_log` leaves the context in the state `WithLogEntry` describes |
| PropertyAccess.OptionalProperty | baseclass/src/main/java/com/google/apigee/calloutbaseclass/CalloutBase.java:64-74 | present exactly when the name is configured and its trimmed, resolved value is nonempty, and then it is that value; never a present empty string |
| PropertyAccess.RequiredProperty | baseclass/src/main/java/com/google/apigee/calloutbaseclass/CalloutBase.java:85-88 | succeeds exactly when the optional value is present, with that value; otherwise fails with a message-less `IllegalArgumentException` |
| PropertyAccess.RequiredPropertyExplained | baseclass/src/main/java/com/google/apigee/calloutbaseclass/CalloutsBase.java:83-92 | a missing name fails with "`name` does not exist in properties"; an empty resolved value fails with "`name` resolves to an empty string" |
| PropertyAccess.RequiredVariantsAgree | baseclass/src/main/java/com/google/apigee/calloutbaseclass/CalloutsBase.java:83-92 | both required-property styles succeed on the same inputs with the same value |
| PropertyAccess.BlankPropertyIsAbsent | baseclass/test/java/com/google/apigee/calloutbaseclass/CalloutBaseTest.java:79-84 | a blank configured value reads as absent, and as a required property it fails |
| PropertyAccess.PlainPropertyIsTrimmed | baseclass/test/java/com/google/apigee/calloutbaseclass/CalloutBaseTest.java:64-70 | a configured value without references reads as its trimmed self, unless it is blank |
| PropertyAccess.ReferencePropertyResolves | baseclass/src/main/java/com/google/apigee/calloutbaseclass/CalloutBase.java:68-73 | a configured value that is one padded reference reads as the variable's value, else the default, else absent |
| CalloutBaseClass.CalloutBase.constructor | baseclass/src/main/java/com/google/apigee/calloutbaseclass/CalloutBase.java:52-54 | the properties are kept as given |
| CalloutBaseClass.CalloutBase.GetOptionalProperty | baseclass/src/main/java/com/google/apigee/calloutbaseclass/CalloutBase.java:64-74 | the early-return method returns `OptionalProperty` of the properties and the context's variables |
| CalloutBaseClass.CalloutBase.GetRequiredProperty | baseclass/src/main/java/com/google/apigee/calloutbaseclass/CalloutBase.java:85-88 | returns `RequiredProperty` |
| CalloutBaseClass.CalloutBase.ResolveVariableReferences | baseclass/src/main/java/com/google/apigee/calloutbaseclass/CalloutBase.java:98-116 | returns `Resolve` of the text against the context's variables |
| CalloutBaseClass.CalloutBase.SetExceptionVariables | baseclass/src/main/java/com/google/apigee/calloutbaseclass/CalloutBase.java:124-135 | the context's variables become `WithException` of the old ones |
| CalloutBaseClass.CalloutBase.Log | baseclass/src/main/java/com/google/apigee/calloutbaseclass/CalloutBase.java:143-160 | the context's variables become `WithLogEntry` of the old ones |
| CalloutsBaseClass.CalloutsBase.constructor | baseclass/src/main/java/com/google/apigee/calloutbaseclass/CalloutsBase.java:53-55 | the properties are kept as given |
| CalloutsBaseClass.CalloutsBase.GetOptionalProperty | baseclass/src/main/java/com/google/apigee/calloutbaseclass/CalloutsBase.java:64-73 | returns `OptionalProperty`, with `None` standing for `null` |
| CalloutsBaseClass.CalloutsBase.GetRequiredProperty | baseclass/src/main/java/com/google/apigee/calloutbaseclass/CalloutsBase.java:83-92 | returns `RequiredPropertyExplained` |
| CalloutsBaseClass.CalloutsBase.ResolveVariableReferences | baseclass/src/main/java/com/google/apigee/calloutbaseclass/CalloutsBase.java:102-120 | returns `Resolve` of the text against the context's variables |
| CalloutsBaseClass.CalloutsBase.SetExceptionVariables | baseclass/src/main/java/com/google/apigee/calloutbaseclass/CalloutsBase.java:128-139 | the context's variables become `WithException` of the old ones |
| CalloutsBaseClass.CalloutsBase.Log | baseclass/src/main/java/com/google/apigee/calloutbaseclass/CalloutsBase.java:147-165 | the context's variables become `WithLogEntry` of the old ones |
| BaseclassExceptionSample.CalloutBase.constructor | baseclass-samples/java-callouts-baseclass-exception/callout/src/main/java/BaseclassException.java:41-43 | the properties are kept as given |
| BaseclassExceptionSample.CalloutBase.GetOptionalProperty | baseclass-samples/java-callouts-baseclass-exception/callout/src/main/java/BaseclassException.java:53-63 | returns `OptionalProperty` |
| BaseclassExceptionSample.CalloutBase.GetRequiredProperty | baseclass-samples/java-callouts-baseclass-exception/callout/src/main/java/BaseclassException.java:74-77 | returns `RequiredProperty` |
| BaseclassExceptionSample.CalloutBase.ResolveVariableReferences | baseclass-samples/java-callouts-baseclass-exception/callout/src/main/java/BaseclassException.java:87-108 | returns `Resolve` of the text against the context's variables |
| BaseclassExceptionSample.CalloutBase.SetExceptionVariables | baseclass-samples/java-callouts-baseclass-exception/callout/src/main/java/BaseclassException.java:116-127 | the context's variables become `WithException` of the old ones |
| BaseclassExceptionSample.CalloutBase.Log | baseclass-samples/java-callouts-baseclass-exception/callout/src/main/java/BaseclassException.java:135-152 | the context's variables become `WithLogEntry` of the old ones |

## Left out

- Call-site introspection (`getStackTraceElement`) reads the JVM's stack through reflection. `Log` instead takes the
  formatted frame `Class.method[File:line]` as an argument, with "" when no frame qualifies.
- `Exception.toString()` and the printed stack trace (`getStackTrace`) are JVM calls. Their texts are inputs of
  `SetExceptionVariables`. A `null` exception, which would make the source throw, is not modelled.
- The console echo (`System.out.println`) in `CalloutsBase.log` is output only and is not modelled.
- Property values are strings. A property mapped to `null`, which makes both accessors throw `NullPointerException`
  at `trim()`, and a raw map holding non-`String` values are not modelled.
- Flow variables are strings. The `(String)` cast of a non-string variable, which would throw `ClassCastException`,
  is not modelled. The log statement (a Java `Object`) is taken as its string form.
- General Java regular expressions are not modelled. The two fixed patterns are modelled as hand-written scanners
  with Java's `find()` and `matches()` semantics.
- The samples' `execute` methods are host plugin glue (`ExecutionResult`, message content) and are not modelled.
- The unit tests, with their Mockito spies and captured console output, are not modelled. Their expectations appear
  as lemmas.
- `ErrorSummaryOfLabelled` requires a label without `:` or `;`. Labels that contain them are covered by
  `MatchCommonErrorSpec` instead.
- `ReferencePropertyResolves` covers a default made of reference characters only, because a space or brace would end
  the placeholder. Other text is covered by `ResolveLiteralThenPlaceholder`.
