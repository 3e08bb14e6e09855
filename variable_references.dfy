/**
 * Flow-variable references inside configuration text: `{name}` and
 * `{name:default}`, recognised by the pattern
 * `(.*?)\{([^\{\} :][^\{\} ]*?)\}(.*?)` and replaced one by one, left to
 * right, by `resolveVariableReferences`.
 */
module VariableReferences {
  import opened Wrappers
  import opened JavaText
  import opened MessageContexts

  /** First character of a reference: anything but `{`, `}`, space or `:`. */
  predicate IsReferenceStart(c: char) {
    c != '{' && c != '}' && c != ' ' && c != ':'
  }

  /** Later characters of a reference: anything but `{`, `}` or space. */
  predicate IsReferenceChar(c: char) {
    c != '{' && c != '}' && c != ' '
  }

  /** The text between the braces of a placeholder (group 2 of the pattern). */
  predicate IsReference(ref: string) {
    |ref| > 0 && IsReferenceStart(ref[0]) && forall i :: 1 <= i < |ref| ==> IsReferenceChar(ref[i])
  }

  /** A placeholder opens at `j` and closes at `k` in `s`. */
  predicate PlaceholderAt(s: string, j: int, k: int) {
    0 <= j && j + 1 < k < |s| && s[j] == '{' && IsReferenceStart(s[j + 1]) && s[k] == '}' &&
    forall i :: j + 1 < i < k ==> IsReferenceChar(s[i])
  }

  /** A placeholder closes at exactly one place: the first `}` after it opens. */
  lemma PlaceholderCloseUnique(s: string, j: int, k1: int, k2: int)
    requires PlaceholderAt(s, j, k1) && PlaceholderAt(s, j, k2)
    ensures k1 == k2
  {
  }

  /** First index at or after `i` that cannot belong to a reference (or |s|). */
  function ReferenceEnd(s: string, i: nat): (p: nat)
    requires i <= |s|
    ensures i <= p <= |s|
    decreases |s| - i
  {
    if i < |s| && IsReferenceChar(s[i]) then ReferenceEnd(s, i + 1) else i
  }

  /** ReferenceEnd stops at the first character a reference cannot hold. */
  lemma {:induction false} ReferenceEndStops(s: string, i: nat)
    requires i <= |s|
    ensures forall m :: i <= m < ReferenceEnd(s, i) ==> IsReferenceChar(s[m])
    ensures ReferenceEnd(s, i) < |s| ==> !IsReferenceChar(s[ReferenceEnd(s, i)])
    decreases |s| - i
  {
    if i < |s| && IsReferenceChar(s[i]) {
      ReferenceEndStops(s, i + 1);
    }
  }

  /** Where the placeholder opening at `j` closes, if one opens there. */
  function PlaceholderEnd(s: string, j: nat): (r: Option<nat>)
    ensures r.Some? ==> j + 1 < r.value < |s|
  {
    if j + 1 < |s| && s[j] == '{' && IsReferenceStart(s[j + 1]) then
      var p := ReferenceEnd(s, j + 2);
      if p < |s| && s[p] == '}' then Some(p) else None
    else
      None
  }

  /** PlaceholderEnd finds the placeholder opening at `j`, and only it. */
  lemma PlaceholderEndFinds(s: string, j: nat)
    ensures forall k :: PlaceholderAt(s, j, k) <==> PlaceholderEnd(s, j) == Some(k)
  {
    if j + 1 < |s| {
      ReferenceEndStops(s, j + 2);
    }
  }

  /**
   * `matcher.find()` from position `from`: the leftmost placeholder that
   * opens at or after `from`, as (open, close) brace indices.
   */
  function FindPlaceholder(s: string, from: nat): (r: Option<(nat, nat)>)
    ensures r.Some? ==> from <= r.value.0 && r.value.0 + 1 < r.value.1 < |s|
    decreases |s| - from
  {
    if from >= |s| then None
    else match PlaceholderEnd(s, from)
      case Some(k) => Some((from, k))
      case None => FindPlaceholder(s, from + 1)
  }

  /**
   * FindPlaceholder returns a placeholder with none opening before it, and
   * returns nothing only when no placeholder opens at or after `from`.
   */
  lemma {:induction false} FindPlaceholderFinds(s: string, from: nat)
    ensures var r := FindPlaceholder(s, from);
      r.Some? ==> PlaceholderAt(s, r.value.0, r.value.1)
    ensures var r := FindPlaceholder(s, from);
      r.Some? ==> forall j, k :: from <= j < r.value.0 ==> !PlaceholderAt(s, j, k)
    ensures FindPlaceholder(s, from).None? ==> forall j, k :: from <= j ==> !PlaceholderAt(s, j, k)
    decreases |s| - from
  {
    if from < |s| {
      PlaceholderEndFinds(s, from);
      if PlaceholderEnd(s, from).None? {
        FindPlaceholderFinds(s, from + 1);
      }
    }
  }

  /** The leftmost placeholder from `from` is the one FindPlaceholder returns. */
  lemma FindPlaceholderIs(s: string, from: nat, j: nat, k: nat)
    requires from <= j && PlaceholderAt(s, j, k)
    requires forall j', k' :: from <= j' < j ==> !PlaceholderAt(s, j', k')
    ensures FindPlaceholder(s, from) == Some((j, k))
  {
    FindPlaceholderFinds(s, from);
    var r := FindPlaceholder(s, from);
    PlaceholderCloseUnique(s, j, k, r.value.1);
  }

  /**
   * What one reference contributes: the variable's value when it is set,
   * else the default after the first `:`, else nothing.
   */
  function Substitution(ref: string, vars: map<string, string>): string {
    var (name, default) := SplitOnce(ref, ':');
    if name in vars then vars[name]
    else if default.Some? then default.value
    else ""
  }

  /**
   * The resolution of the text `t`: the text up to its first placeholder
   * is kept, the placeholder is substituted by `sub`, and the text after
   * its closing brace is resolved in turn; with no placeholder left the
   * text is kept.
   */
  function Resolved(t: string, sub: string -> string): string
    decreases |t|
  {
    var found := FindPlaceholder(t, 0);
    if found.None? then t
    else
      var j, k := found.value.0, found.value.1;
      t[..j] + sub(t[j + 1..k]) + Resolved(t[k + 1..], sub)
  }

  /** Substitution of references against the flow variables `vars`. */
  function SubstitutionIn(vars: map<string, string>): string -> string {
    ref => Substitution(ref, vars)
  }

  /** The reference semantics of `resolveVariableReferences`. */
  function Resolve(s: string, vars: map<string, string>): string {
    Resolved(s, SubstitutionIn(vars))
  }

  /** One unfolding of Resolved at the placeholder the search finds. */
  lemma ResolvedStep(t: string, j: nat, k: nat, sub: string -> string)
    requires FindPlaceholder(t, 0) == Some((j, k))
    ensures Resolved(t, sub) == t[..j] + sub(t[j + 1..k]) + Resolved(t[k + 1..], sub)
  {
  }

  /** Text `s` from position `lo` on is exactly `t`. */
  predicate EndsWith(s: string, lo: nat, t: string)
  {
    lo <= |s| && s[lo..] == t
  }

  /** What comes before `lo` does not change where a reference ends after it. */
  lemma {:induction false} ReferenceEndShifted(s: string, lo: nat, t: string, i: nat)
    requires EndsWith(s, lo, t) && i <= |t|
    ensures ReferenceEnd(s, lo + i) == lo + ReferenceEnd(t, i)
    decreases |t| - i
  {
    if i < |t| {
      assert s[lo + i] == t[i];
      if IsReferenceChar(t[i]) {
        ReferenceEndShifted(s, lo, t, i + 1);
      }
    }
  }

  /** What comes before `lo` does not change whether a placeholder opens after it. */
  lemma PlaceholderEndShifted(s: string, lo: nat, t: string, j: nat)
    requires EndsWith(s, lo, t)
    ensures PlaceholderEnd(s, lo + j).Some? <==> PlaceholderEnd(t, j).Some?
    ensures PlaceholderEnd(t, j).Some? ==> PlaceholderEnd(s, lo + j).value == lo + PlaceholderEnd(t, j).value
  {
    if j + 1 < |t| {
      assert s[lo + j] == t[j] && s[lo + j + 1] == t[j + 1];
      ReferenceEndShifted(s, lo, t, j + 2);
      var e := ReferenceEnd(t, j + 2);
      if e < |t| {
        assert s[lo + e] == t[e];
      }
    }
  }

  /** Searching from inside the tail `t` finds the placeholders of `t`, shifted by `lo`. */
  lemma {:induction false} FindPlaceholderShifted(s: string, lo: nat, t: string, i: nat)
    requires EndsWith(s, lo, t) && i <= |t|
    ensures FindPlaceholder(s, lo + i).Some? <==> FindPlaceholder(t, i).Some?
    ensures FindPlaceholder(t, i).Some? ==>
      FindPlaceholder(s, lo + i).value.0 == lo + FindPlaceholder(t, i).value.0 &&
      FindPlaceholder(s, lo + i).value.1 == lo + FindPlaceholder(t, i).value.1
    decreases |t| - i
  {
    if i < |t| {
      PlaceholderEndShifted(s, lo, t, i);
      if PlaceholderEnd(t, i).None? {
        FindPlaceholderShifted(s, lo, t, i + 1);
      }
    }
  }

  /**
   * A search resumed at `from` inside `s` finds what a search of the rest
   * of the text finds, so resolving the rest of `s` goes one placeholder at
   * a time exactly as the loop does.
   */
  lemma ResolvedSuffixStep(s: string, from: nat, open: nat, close: nat, sub: string -> string)
    requires from <= |s| && FindPlaceholder(s, from) == Some((open, close))
    ensures Resolved(s[from..], sub) == s[from..open] + sub(s[open + 1..close]) + Resolved(s[close + 1..], sub)
  {
    var t := s[from..];
    var j, k := open - from, close - from;
    FindPlaceholderInSuffix(s, from, open, close);
    ResolvedStep(t, j, k, sub);
    SuffixSlices(s, from, t, j, k, open, close);
  }

  /** The placeholder a search resumed at `from` finds, seen from the rest of the text. */
  lemma FindPlaceholderInSuffix(s: string, from: nat, open: nat, close: nat)
    requires from <= |s| && FindPlaceholder(s, from) == Some((open, close))
    ensures FindPlaceholder(s[from..], 0) == Some((open - from, close - from))
  {
    FindPlaceholderShifted(s, from, s[from..], 0);
  }

  /** Slices of the rest of the text are slices of the whole text. */
  lemma SuffixSlices(s: string, from: nat, t: string, j: nat, k: nat, open: nat, close: nat)
    requires from <= |s| && t == s[from..] && j < k < |t|
    requires open == from + j && close == from + k
    ensures t[..j] == s[from..open]
    ensures t[j + 1..k] == s[open + 1..close]
    ensures t[k + 1..] == s[close + 1..]
  {
    assert t[..j] == s[from..open] by {
      forall m | 0 <= m < j ensures t[m] == s[from + m] { }
    }
    assert t[j + 1..k] == s[open + 1..close] by {
      forall m | j + 1 <= m < k ensures t[m] == s[from + m] { }
    }
    assert t[k + 1..] == s[close + 1..] by {
      forall m | k + 1 <= m < |t| ensures t[m] == s[from + m] { }
    }
  }

  /** With no placeholder left after `from`, the rest of `s` resolves to itself. */
  lemma ResolvedSuffixDone(s: string, from: nat, sub: string -> string)
    requires from <= |s| && FindPlaceholder(s, from).None?
    ensures Resolved(s[from..], sub) == s[from..]
  {
    FindPlaceholderShifted(s, from, s[from..], 0);
  }

  /** Text in which no placeholder opens is returned unchanged. */
  lemma ResolveWithoutPlaceholder(s: string, vars: map<string, string>)
    requires forall j, k :: !PlaceholderAt(s, j, k)
    ensures Resolve(s, vars) == s
  {
    FindPlaceholderFinds(s, 0);
    assert s[0..] == s;
  }

  /** In particular, text without any `{` is returned unchanged. */
  lemma ResolveWithoutBrace(s: string, vars: map<string, string>)
    requires '{' !in s
    ensures Resolve(s, vars) == s
  {
    forall j, k ensures !PlaceholderAt(s, j, k) {
      if 0 <= j < |s| { assert s[j] in s; }
    }
    ResolveWithoutPlaceholder(s, vars);
  }

  /**
   * Literal text before a placeholder is kept in place, the placeholder is
   * substituted, and the text after it is resolved independently: matches
   * do not overlap and substituted values are never scanned again.
   */
  lemma ResolveLiteralThenPlaceholder(lit: string, ref: string, rest: string, vars: map<string, string>)
    requires forall j, k :: !PlaceholderAt(lit, j, k)
    requires IsReference(ref)
    ensures Resolve(lit + "{" + ref + "}" + rest, vars) == lit + Substitution(ref, vars) + Resolve(rest, vars)
  {
    var s := lit + "{" + ref + "}" + rest;
    var j, k := |lit|, |lit| + |ref| + 1;
    forall i | j + 1 < i < k ensures IsReferenceChar(s[i]) {
      assert s[i] == ref[i - j - 1];
    }
    assert s[j + 1] == ref[0];
    assert PlaceholderAt(s, j, k);
    forall j', k' | 0 <= j' < j ensures !PlaceholderAt(s, j', k') {
      if k' < j {
        assert !PlaceholderAt(lit, j', k');
        forall i | j' <= i <= k' ensures s[i] == lit[i] { }
      } else {
        assert s[j] == '{';
      }
    }
    FindPlaceholderIs(s, 0, j, k);
    ResolvedStep(s, j, k, SubstitutionIn(vars));
    assert s[..j] == lit;
    assert s[j + 1..k] == ref;
    assert s[k + 1..] == rest;
  }

  /** A placeholder that is the whole text resolves to its substitution. */
  lemma ResolveLonePlaceholder(ref: string, vars: map<string, string>)
    requires IsReference(ref)
    ensures Resolve("{" + ref + "}", vars) == Substitution(ref, vars)
  {
    var s := "{" + ref + "}";
    var k := |ref| + 1;
    forall i | 1 < i < k ensures IsReferenceChar(s[i]) {
      assert s[i] == ref[i - 1];
    }
    assert PlaceholderAt(s, 0, k);
    FindPlaceholderIs(s, 0, 0, k);
    ResolvedStep(s, 0, k, SubstitutionIn(vars));
    assert s[1..k] == ref;
    assert s[k + 1..] == [];
  }

  /**
   * The reference is split at its first `:`: the variable's value wins when
   * it is set, else the text after the colon (further colons included) is
   * the default, else the reference contributes nothing.
   */
  lemma SubstitutionCases(name: string, default: Option<string>, vars: map<string, string>)
    requires ':' !in name
    ensures Substitution(if default.Some? then name + ":" + default.value else name, vars) ==
      if name in vars then vars[name] else if default.Some? then default.value else ""
  {
    if default.Some? {
      SplitOnceOfJoined(name, ':', default.value);
    } else {
      SplitOnceParts(name, ':');
    }
  }

  /**
   * A lone placeholder `{name}` or `{name:default}` yields the variable's
   * value when it is set (whatever the default), else the default, else "".
   */
  lemma ResolveSinglePlaceholder(name: string, default: Option<string>, vars: map<string, string>)
    requires IsReference(name) && ':' !in name
    requires default.Some? ==> forall i :: 0 <= i < |default.value| ==> IsReferenceChar(default.value[i])
    ensures var ref := if default.Some? then name + ":" + default.value else name;
      Resolve("{" + ref + "}", vars) ==
        if name in vars then vars[name] else if default.Some? then default.value else ""
  {
    var ref := if default.Some? then name + ":" + default.value else name;
    if default.Some? {
      assert IsReference(ref) by {
        forall i | 1 <= i < |ref| ensures IsReferenceChar(ref[i]) {
          if i < |name| {
            assert ref[i] == name[i];
          } else if i > |name| {
            assert ref[i] == default.value[i - |name| - 1];
          }
        }
      }
    }
    ResolveLonePlaceholder(ref, vars);
    SubstitutionCases(name, default, vars);
  }

  /** Text in which no placeholder can close is returned unchanged. */
  lemma ResolveWithoutCloseBrace(s: string, vars: map<string, string>)
    requires '}' !in s
    ensures Resolve(s, vars) == s
  {
    forall j, k ensures !PlaceholderAt(s, j, k) {
      if 0 <= k < |s| { assert s[k] in s; }
    }
    ResolveWithoutPlaceholder(s, vars);
  }

  /**
   * A `{` followed by a character that cannot start a reference (`}`, a
   * space, `:` or another `{`) opens nothing: `{}`, `{ a}` and `{:a}` stay
   * as written.
   */
  lemma ResolveKeepsBadStart(t: string, vars: map<string, string>)
    requires '{' !in t
    requires t == [] || !IsReferenceStart(t[0])
    ensures Resolve("{" + t, vars) == "{" + t
  {
    var s := "{" + t;
    forall j, k ensures !PlaceholderAt(s, j, k) {
      if 1 <= j < |s| { assert s[j] == t[j - 1]; assert t[j - 1] in t; }
    }
    ResolveWithoutPlaceholder(s, vars);
  }

  /**
   * A `{` that opens nothing stays literal beside a real placeholder: `{}{a}`
   * and `{ x}{a}` keep their first braces and substitute `{a}`.
   */
  lemma ResolveBadStartThenPlaceholder(t: string, ref: string, rest: string, vars: map<string, string>)
    requires '{' !in t
    requires t == [] || !IsReferenceStart(t[0])
    requires IsReference(ref)
    ensures Resolve("{" + t + "{" + ref + "}" + rest, vars) == "{" + t + Substitution(ref, vars) + Resolve(rest, vars)
  {
    var lit := "{" + t;
    forall j, k ensures !PlaceholderAt(lit, j, k) {
      if 1 <= j < |lit| { assert lit[j] == t[j - 1]; assert t[j - 1] in t; }
    }
    ResolveLiteralThenPlaceholder(lit, ref, rest, vars);
  }

  /** Only the innermost braces of `{a{b}` form a placeholder. */
  lemma ResolveNestedOpen(vars: map<string, string>)
    ensures Resolve("{a{b}", vars) == "{a" + Substitution("b", vars)
  {
    var s := "{a{b}";
    assert PlaceholderAt(s, 2, 4);
    assert forall k :: !PlaceholderAt(s, 0, k);
    FindPlaceholderIs(s, 0, 2, 4);
    ResolvedStep(s, 2, 4, SubstitutionIn(vars));
    assert s[..2] == "{a" && s[3..4] == "b" && s[5..] == "";
  }

  /** Every placeholder of a template is substituted, left to right. */
  lemma ResolveTwoPlaceholders(lit1: string, ref1: string, lit2: string, ref2: string, lit3: string,
                               vars: map<string, string>)
    requires forall j, k :: !PlaceholderAt(lit1, j, k)
    requires forall j, k :: !PlaceholderAt(lit2, j, k)
    requires forall j, k :: !PlaceholderAt(lit3, j, k)
    requires IsReference(ref1) && IsReference(ref2)
    ensures Resolve(lit1 + "{" + ref1 + "}" + (lit2 + "{" + ref2 + "}" + lit3), vars) ==
      lit1 + Substitution(ref1, vars) + (lit2 + Substitution(ref2, vars) + lit3)
  {
    ResolveWithoutPlaceholder(lit3, vars);
    ResolveLiteralThenPlaceholder(lit2, ref2, lit3, vars);
    ResolveLiteralThenPlaceholder(lit1, ref1, lit2 + "{" + ref2 + "}" + lit3, vars);
  }

  /** A substituted value is inserted verbatim, never scanned for references. */
  lemma ResolveDoesNotRescan(vars: map<string, string>)
    requires vars == map["a" := "{b}", "b" := "x"]
    ensures Resolve("{a}", vars) == "{b}"
  {
    ResolveSinglePlaceholder("a", None, vars);
    assert "{" + "a" + "}" == "{a}";
  }

  /**
   * Where `find()` starts a match whose placeholder opens at `open`, when the
   * search resumes at `from`: group 1 `(.*?)` cannot cross a line
   * terminator, so the match starts just after the last terminator before
   * the brace, or at `from` when there is none.
   */
  function MatchStart(s: string, from: nat, open: nat): (p: nat)
    requires from <= open <= |s|
    ensures from <= p <= open
    ensures forall i :: p <= i < open ==> !IsLineTerminator(s[i])
    ensures p > from ==> IsLineTerminator(s[p - 1])
    decreases open - from
  {
    if open == from || IsLineTerminator(s[open - 1]) then open
    else MatchStart(s, from, open - 1)
  }

  /**
   * What one match appends to the buffer when the search resumed at `from`
   * and found the placeholder `open`..`close`: `appendReplacement(sb, "")`
   * copies the text before the match start, group 1 the text from there
   * to the brace, then the variable's value, else the default after the
   * first `:`; group 3 is always empty.
   */
  method AppendMatch(spec: string, from: nat, open: nat, close: nat, ctx: MessageContext)
    returns (piece: string)
    requires from <= open < close < |spec|
    ensures piece == spec[from..open] + Substitution(spec[open + 1..close], ctx.variables)
  {
    var start := MatchStart(spec, from, open);
    piece := spec[from..start];
    piece := piece + spec[start..open];
    assert piece == spec[from..open];
    var ref := spec[open + 1..close];
    var (name, default) := SplitOnce(ref, ':');
    var v := ctx.GetVariable(name);
    if v.Some? {
      piece := piece + v.value;
    } else if default.Some? {
      piece := piece + default.value;
    }
  }

  /** Concatenation regroups freely. */
  lemma AppendAssociates(a: string, b: string, c: string)
    ensures a + (b + c) == (a + b) + c
  {
  }

  /**
   * The invariant of the resolving loop: the buffer `sb`, followed by the
   * resolution of what is left from `pos`, is the whole resolution.
   */
  predicate BufferHolds(s: string, pos: nat, sub: string -> string, sb: string, whole: string) {
    pos <= |s| && sb + Resolved(s[pos..], sub) == whole
  }

  /** The buffer invariant survives one match. */
  lemma ResolveBufferStep(s: string, from: nat, open: nat, close: nat, sub: string -> string,
                          sb: string, piece: string, whole: string, sb': string, pos': nat)
    requires BufferHolds(s, from, sub, sb, whole)
    requires FindPlaceholder(s, from) == Some((open, close))
    requires piece == s[from..open] + sub(s[open + 1..close])
    requires sb' == sb + piece && pos' == close + 1
    ensures BufferHolds(s, pos', sub, sb', whole)
  {
    ResolvedSuffixStep(s, from, open, close, sub);
    AppendAssociates(sb, piece, Resolved(s[close + 1..], sub));
  }

  /** With no placeholder left, the buffer and the rest of the text are the whole resolution. */
  lemma ResolveBufferDone(s: string, pos: nat, sub: string -> string, sb: string, whole: string)
    requires BufferHolds(s, pos, sub, sb, whole)
    requires FindPlaceholder(s, pos).None?
    ensures sb + s[pos..] == whole
  {
    ResolvedSuffixDone(s, pos, sub);
  }

  /**
   * `resolveVariableReferences(spec, messageContext)`: the `find()` /
   * `appendReplacement` / `appendTail` loop, building the result in a
   * buffer that holds the resolution of everything before `appendPos`.
   */
  method ResolveVariableReferences(spec: string, ctx: MessageContext) returns (r: string)
    ensures r == Resolve(spec, ctx.variables)
  {
    ghost var sub := SubstitutionIn(ctx.variables);
    ghost var whole := Resolve(spec, ctx.variables);
    var sb := "";
    var appendPos: nat := 0;
    var found := FindPlaceholder(spec, 0);
    assert spec[0..] == spec;
    assert BufferHolds(spec, 0, sub, "", whole);
    while found.Some?
      invariant found == FindPlaceholder(spec, appendPos)
      invariant BufferHolds(spec, appendPos, sub, sb, whole)
      decreases |spec| - appendPos
    {
      var open, close := found.value.0, found.value.1;
      var piece := AppendMatch(spec, appendPos, open, close, ctx);
      ghost var pos := appendPos;
      ghost var before := sb;
      sb := sb + piece;
      appendPos := close + 1;
      ResolveBufferStep(spec, pos, open, close, sub, before, piece, whole, sb, appendPos);
      found := FindPlaceholder(spec, appendPos);
    }
    ResolveBufferDone(spec, appendPos, sub, sb, whole);
    r := sb + spec[appendPos..];
  }
}
