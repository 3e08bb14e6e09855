/**
 * The pieces of `java.lang.String` and `java.util.regex` behaviour that the
 * callout base class relies on: `trim()`, `replaceAll("\n", " ")`,
 * `split(":", 2)` and the line terminators that the regex `.` refuses.
 */
module JavaText {
  import opened Wrappers

  /** Characters that the regex `.` does not match (no DOTALL flag). */
  predicate IsLineTerminator(c: char) {
    c == '\n' || c == '\r' || c == '\U{85}' || c == '\U{2028}' || c == '\U{2029}'
  }

  predicate NoLineTerminator(s: string) {
    forall i :: 0 <= i < |s| ==> !IsLineTerminator(s[i])
  }

  /** Joined text is free of line terminators exactly when both parts are. */
  lemma NoLineTerminatorJoined(a: string, b: string)
    ensures NoLineTerminator(a + b) <==> NoLineTerminator(a) && NoLineTerminator(b)
  {
    if NoLineTerminator(a + b) {
      forall i | 0 <= i < |a| ensures !IsLineTerminator(a[i]) {
        assert a[i] == (a + b)[i];
      }
      forall i | 0 <= i < |b| ensures !IsLineTerminator(b[i]) {
        assert b[i] == (a + b)[|a| + i];
      }
    } else if NoLineTerminator(a) && NoLineTerminator(b) {
      forall i | 0 <= i < |a + b| ensures !IsLineTerminator((a + b)[i]) {
        if i >= |a| {
          assert (a + b)[i] == b[i - |a|];
        }
      }
    }
  }

  /** `String.trim()` strips every character whose code is at most U+0020. */
  predicate IsTrimmable(c: char) {
    c <= ' '
  }

  predicate AllTrimmable(s: string) {
    forall i :: 0 <= i < |s| ==> IsTrimmable(s[i])
  }

  /** First index at or after `i` that `trim()` keeps (or |s|). */
  function SkipLeading(s: string, i: nat): (r: nat)
    requires i <= |s|
    ensures i <= r <= |s|
    ensures forall m :: i <= m < r ==> IsTrimmable(s[m])
    ensures r < |s| ==> !IsTrimmable(s[r])
    decreases |s| - i
  {
    if i < |s| && IsTrimmable(s[i]) then SkipLeading(s, i + 1) else i
  }

  /** End (exclusive) of the kept part of s[lo..hi], scanning back from `hi`. */
  function SkipTrailing(s: string, lo: nat, hi: nat): (r: nat)
    requires lo <= hi <= |s|
    ensures lo <= r <= hi
    ensures forall m :: r <= m < hi ==> IsTrimmable(s[m])
    ensures r > lo ==> !IsTrimmable(s[r - 1])
    decreases hi
  {
    if lo < hi && IsTrimmable(s[hi - 1]) then SkipTrailing(s, lo, hi - 1) else hi
  }

  /**
   * `String.trim()`: the result is empty exactly when every character is
   * trimmable, and otherwise starts and ends with a kept character.
   */
  function Trim(s: string): (r: string)
    ensures |r| <= |s|
    ensures r == "" <==> AllTrimmable(s)
    ensures r != "" ==> !IsTrimmable(r[0]) && !IsTrimmable(r[|r| - 1])
  {
    var start := SkipLeading(s, 0);
    var end := SkipTrailing(s, start, |s|);
    s[start..end]
  }

  /** Trimming undoes any padding with trimmable characters. */
  lemma TrimUnpads(pre: string, core: string, post: string)
    requires AllTrimmable(pre) && AllTrimmable(post)
    requires core == "" || (!IsTrimmable(core[0]) && !IsTrimmable(core[|core| - 1]))
    ensures Trim(pre + core + post) == core
  {
    var s := pre + core + post;
    if core == "" {
      assert AllTrimmable(s) by {
        forall i | 0 <= i < |s| ensures IsTrimmable(s[i]) {
          if i < |pre| { assert s[i] == pre[i]; } else { assert s[i] == post[i - |pre|]; }
        }
      }
    } else {
      var start := SkipLeading(s, 0);
      assert s[|pre|] == core[0];
      assert start == |pre|;
      var end := SkipTrailing(s, start, |s|);
      var last := |pre| + |core|;
      assert s[last - 1] == core[|core| - 1];
      assert end == last;
      assert s[start..end] == core;
    }
  }

  /** Trimming twice is trimming once. */
  lemma TrimIdempotent(s: string)
    ensures Trim(Trim(s)) == Trim(s)
  {
    TrimUnpads("", Trim(s), "");
    assert "" + Trim(s) + "" == Trim(s);
  }

  /** Trimming only removes characters: what the text lacks, its trimmed form lacks. */
  lemma TrimLacks(s: string, c: char)
    requires c !in s
    ensures c !in Trim(s)
  {
    var start := SkipLeading(s, 0);
    var end := SkipTrailing(s, start, |s|);
    forall i | 0 <= i < end - start ensures Trim(s)[i] != c {
      assert Trim(s)[i] == s[start + i];
    }
  }

  /** `replaceAll("\n", " ")`: every line feed becomes a space, nothing else moves. */
  function ReplaceNewlines(s: string): (r: string)
    ensures |r| == |s|
    ensures forall i :: 0 <= i < |s| ==> r[i] == (if s[i] == '\n' then ' ' else s[i])
  {
    if s == [] then []
    else [if s[0] == '\n' then ' ' else s[0]] + ReplaceNewlines(s[1..])
  }

  /** Text without line feeds is left alone. */
  lemma ReplaceNewlinesWithout(s: string)
    requires NoLineTerminator(s)
    ensures ReplaceNewlines(s) == s
  {
  }

  /** Index of the first occurrence of `c` in `s` at or after `i`. */
  function IndexOf(s: string, c: char, i: nat): (r: Option<nat>)
    requires i <= |s|
    ensures r.Some? ==> i <= r.value < |s|
    decreases |s| - i
  {
    if i == |s| then None
    else if s[i] == c then Some(i)
    else IndexOf(s, c, i + 1)
  }

  /** IndexOf finds the first `c` at or after `i`, and finds none only when there is none. */
  lemma {:induction false} IndexOfFinds(s: string, c: char, i: nat)
    requires i <= |s|
    ensures IndexOf(s, c, i).None? ==> forall m :: i <= m < |s| ==> s[m] != c
    ensures IndexOf(s, c, i).Some? ==>
      s[IndexOf(s, c, i).value] == c && forall m :: i <= m < IndexOf(s, c, i).value ==> s[m] != c
    decreases |s| - i
  {
    if i < |s| && s[i] != c {
      IndexOfFinds(s, c, i + 1);
    }
  }

  /**
   * `s.split(String.valueOf(sep), 2)`: the text before the first `sep`, and
   * the rest after it, if there is one.
   */
  function SplitOnce(s: string, sep: char): (string, Option<string>) {
    match IndexOf(s, sep, 0)
    case None => (s, None)
    case Some(i) => (s[..i], Some(s[i + 1..]))
  }

  /**
   * Without `sep` the text stays whole; otherwise it is the part before the
   * first `sep`, the `sep`, and the rest (which may hold further `sep`s).
   */
  lemma SplitOnceParts(s: string, sep: char)
    ensures SplitOnce(s, sep).1.None? <==> sep !in s
    ensures SplitOnce(s, sep).1.None? ==> SplitOnce(s, sep).0 == s
    ensures SplitOnce(s, sep).1.Some? ==>
      s == SplitOnce(s, sep).0 + [sep] + SplitOnce(s, sep).1.value && sep !in SplitOnce(s, sep).0
  {
    IndexOfFinds(s, sep, 0);
    match IndexOf(s, sep, 0)
    case None =>
      assert sep !in s;
    case Some(i) =>
      assert s == s[..i] + [sep] + s[i + 1..];
  }

  /** Splitting `head + sep + tail` at its first `sep` gives back `head` and `tail`. */
  lemma SplitOnceOfJoined(head: string, sep: char, tail: string)
    requires sep !in head
    ensures SplitOnce(head + [sep] + tail, sep) == (head, Some(tail))
  {
    var s := head + [sep] + tail;
    assert s[|head|] == sep;
    IndexOfFinds(s, sep, 0);
    forall m | 0 <= m < |head| ensures s[m] != sep {
      assert s[m] == head[m];
    }
    assert IndexOf(s, sep, 0) == Some(|head|);
    SplitOnceParts(s, sep);
    var r := SplitOnce(s, sep);
    assert r.1.Some?;
    assert r.0 == s[..|head|] == head;
    assert r.1.value == s[|head| + 1..] == tail;
  }
}
