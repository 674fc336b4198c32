/**
 The three Python `str` operations the sync engine leans on, on `seq<char>`:
 `strip()` and `split()` with no argument, and `splitlines()`. Each comes with
 the inverse that explains it: `Strip` is pinned down by `StripUnique`, `Split`
 undoes `Join` with a whitespace separator, `SplitLines` undoes `Join` with a
 newline separator.
 */
module PyText {

  /** Python's `str.isspace()` for one character. */
  predicate IsSpace(c: char) {
    || c == ' '
    || ('\t' <= c <= '\r')
    || ('\U{1c}' <= c <= '\U{1f}')
    || c == '\U{85}' || c == '\U{a0}' || c == '\U{1680}'
    || ('\U{2000}' <= c <= '\U{200a}')
    || c == '\U{2028}' || c == '\U{2029}' || c == '\U{202f}' || c == '\U{205f}' || c == '\U{3000}'
  }

  /** The characters `str.splitlines()` ends a line at (`\r\n` counts once). */
  predicate IsLineBreak(c: char) {
    || ('\n' <= c <= '\r')
    || ('\U{1c}' <= c <= '\U{1e}')
    || c == '\U{85}' || c == '\U{2028}' || c == '\U{2029}'
  }

  predicate AllSpace(s: string) {
    forall i :: 0 <= i < |s| ==> IsSpace(s[i])
  }

  predicate NoSpace(s: string) {
    forall i :: 0 <= i < |s| ==> !IsSpace(s[i])
  }

  predicate NoLineBreak(s: string) {
    forall i :: 0 <= i < |s| ==> !IsLineBreak(s[i])
  }

  /** A word as `split()` returns it: non-empty, no whitespace inside. */
  predicate IsToken(s: string) {
    s != [] && NoSpace(s)
  }

  /** Neither end is whitespace. */
  predicate IsTrimmed(s: string) {
    s == [] || (!IsSpace(s[0]) && !IsSpace(s[|s| - 1]))
  }

  /** Length of the leading run of whitespace. */
  function LeadingSpace(s: string): (n: nat)
    ensures n <= |s| && AllSpace(s[..n])
    ensures n == |s| || !IsSpace(s[n])
  {
    if s == [] || !IsSpace(s[0]) then 0
    else
      var n := 1 + LeadingSpace(s[1..]);
      assert s[..n] == [s[0]] + s[1..][..n - 1];
      n
  }

  /** Length of the trailing run of whitespace. */
  function TrailingSpace(s: string): (n: nat)
    ensures n <= |s| && AllSpace(s[|s| - n..])
    ensures n == |s| || !IsSpace(s[|s| - n - 1])
  {
    if s == [] || !IsSpace(s[|s| - 1]) then 0
    else
      var p := s[..|s| - 1];
      var n := 1 + TrailingSpace(p);
      assert s[|s| - n..] == p[|p| - (n - 1)..] + [s[|s| - 1]];
      n
  }

  /** `s.strip()`: the middle of `s` once whitespace is cut from both ends. */
  function Strip(s: string): (t: string)
    ensures IsTrimmed(t)
    ensures |t| <= |s|
  {
    var u := s[LeadingSpace(s)..];
    u[..|u| - TrailingSpace(u)]
  }

  /** What `strip()` removes is whitespace on both sides and nothing else. */
  lemma StripSplits(s: string) returns (a: string, b: string)
    ensures AllSpace(a) && AllSpace(b)
    ensures s == a + Strip(s) + b
  {
    var i := LeadingSpace(s);
    var u := s[i..];
    var j := |u| - TrailingSpace(u);
    SliceInThree(s, i, j);
    a := s[..i];
    b := u[j..];
  }

  lemma SliceInThree(s: string, i: nat, j: nat)
    requires i <= |s| && j <= |s| - i
    ensures s == s[..i] + s[i..][..j] + s[i..][j..]
  {
    var u := s[i..];
    assert u == u[..j] + u[j..];
    assert s == s[..i] + u;
  }

  lemma {:induction false} LeadingSpaceOf(a: string, m: string)
    requires AllSpace(a)
    requires m == [] || !IsSpace(m[0])
    ensures LeadingSpace(a + m) == |a|
    decreases |a|
  {
    if a == [] {
      assert a + m == m;
    } else {
      assert (a + m)[1..] == a[1..] + m;
      LeadingSpaceOf(a[1..], m);
    }
  }

  lemma {:induction false} TrailingSpaceOf(m: string, b: string)
    requires AllSpace(b)
    requires m == [] || !IsSpace(m[|m| - 1])
    ensures TrailingSpace(m + b) == |b|
    decreases |b|
  {
    if b == [] {
      assert m + b == m;
    } else {
      assert (m + b)[..|m + b| - 1] == m + b[..|b| - 1];
      TrailingSpaceOf(m, b[..|b| - 1]);
    }
  }

  /** `strip()` is determined by the decomposition it undoes: whitespace, a trimmed middle, whitespace. */
  lemma StripUnique(a: string, m: string, b: string)
    requires AllSpace(a) && AllSpace(b) && IsTrimmed(m)
    ensures Strip(a + m + b) == m
  {
    var s := a + m + b;
    if m == [] {
      assert s == (a + b) + [];
      assert AllSpace(a + b);
      LeadingSpaceOf(a + b, []);
    } else {
      assert s == a + (m + b);
      LeadingSpaceOf(a, m + b);
      assert s[|a|..] == m + b;
      TrailingSpaceOf(m, b);
    }
  }

  /** Stripping twice is stripping once. */
  lemma StripIdempotent(s: string)
    ensures Strip(Strip(s)) == Strip(s)
  {
    var t := Strip(s);
    StripUnique([], t, []);
    assert [] + t + [] == t;
  }

  /** A trailing newline, as git prints after every line, never survives `strip()`. */
  lemma StripTrailingNewline(s: string)
    ensures Strip(s + "\n") == Strip(s)
  {
    var a, b := StripSplits(s);
    var t := Strip(s);
    assert AllSpace(b + "\n");
    assert s + "\n" == a + t + (b + "\n");
    StripUnique(a, t, b + "\n");
  }

  /** Length of the leading run of non-whitespace characters. */
  function TokenLength(s: string): (n: nat)
    ensures n <= |s| && NoSpace(s[..n])
    ensures n == |s| || IsSpace(s[n])
  {
    if s == [] || IsSpace(s[0]) then 0
    else
      var n := 1 + TokenLength(s[1..]);
      assert s[..n] == [s[0]] + s[1..][..n - 1];
      n
  }

  lemma {:induction false} TokenLengthOf(a: string, b: string)
    requires NoSpace(a)
    requires b == [] || IsSpace(b[0])
    ensures TokenLength(a + b) == |a|
    decreases |a|
  {
    if a == [] {
      assert a + b == b;
    } else {
      assert (a + b)[1..] == a[1..] + b;
      TokenLengthOf(a[1..], b);
    }
  }

  /** `s.split()`: the maximal whitespace-free runs of `s`, in order. */
  function Split(s: string): (ts: seq<string>)
    ensures forall i :: 0 <= i < |ts| ==> IsToken(ts[i])
    decreases |s|
  {
    var r := s[LeadingSpace(s)..];
    if r == [] then []
    else
      var n := TokenLength(r);
      [r[..n]] + Split(r[n..])
  }

  /** `sep.join(ts)`. */
  function Join(sep: string, ts: seq<string>): string
  {
    if |ts| == 0 then []
    else if |ts| == 1 then ts[0]
    else ts[0] + sep + Join(sep, ts[1..])
  }

  lemma SplitSkipsSpace(a: string, s: string)
    requires AllSpace(a)
    ensures Split(a + s) == Split(s)
  {
    var i := LeadingSpace(s);
    SpaceThenRest(a, s, i);
    LeadingSpaceOf(a + s[..i], s[i..]);
  }

  lemma SpaceThenRest(a: string, s: string, i: nat)
    requires AllSpace(a) && i <= |s| && AllSpace(s[..i])
    ensures a + s == (a + s[..i]) + s[i..]
    ensures AllSpace(a + s[..i])
    ensures (a + s)[|a + s[..i]|..] == s[i..]
  {
    assert s == s[..i] + s[i..];
  }

  /** A word followed by whitespace (or nothing) is the first thing `split()` returns. */
  lemma SplitWord(w: string, rest: string)
    requires IsToken(w)
    requires rest == [] || IsSpace(rest[0])
    ensures Split(w + rest) == [w] + Split(rest)
  {
    var s := w + rest;
    LeadingSpaceOf([], s);
    assert [] + s == s;
    assert s[0..] == s;
    TokenLengthOf(w, rest);
    assert s[..|w|] == w;
    assert s[|w|..] == rest;
  }

  /** `split()` undoes joining words with any non-empty whitespace separator. */
  lemma {:induction false} SplitJoin(sep: string, ts: seq<string>)
    requires sep != [] && AllSpace(sep)
    requires forall i :: 0 <= i < |ts| ==> IsToken(ts[i])
    ensures Split(Join(sep, ts)) == ts
  {
    if |ts| == 0 {
      assert LeadingSpace([]) == 0;
    } else if |ts| == 1 {
      SplitWord(ts[0], []);
      assert ts[0] + [] == ts[0];
      assert LeadingSpace([]) == 0;
    } else {
      var rest := Join(sep, ts[1..]);
      assert Join(sep, ts) == ts[0] + (sep + rest);
      SplitWord(ts[0], sep + rest);
      SplitSkipsSpace(sep, rest);
      SplitJoin(sep, ts[1..]);
    }
  }

  /** Index of the first line boundary in `s`, or `|s|` when there is none. */
  function LineEnd(s: string): (i: nat)
    ensures i <= |s| && NoLineBreak(s[..i])
    ensures i < |s| ==> IsLineBreak(s[i])
  {
    if s == [] || IsLineBreak(s[0]) then 0
    else
      var i := 1 + LineEnd(s[1..]);
      assert s[..i] == [s[0]] + s[1..][..i - 1];
      i
  }

  lemma {:induction false} LineEndOf(a: string, b: string)
    requires NoLineBreak(a)
    requires b == [] || IsLineBreak(b[0])
    ensures LineEnd(a + b) == |a|
    decreases |a|
  {
    if a == [] {
      assert a + b == b;
    } else {
      assert (a + b)[1..] == a[1..] + b;
      LineEndOf(a[1..], b);
    }
  }

  /** `s.splitlines()`: lines without their terminators; a final terminator opens no empty line. */
  function SplitLines(s: string): (ls: seq<string>)
    ensures forall i :: 0 <= i < |ls| ==> NoLineBreak(ls[i])
    decreases |s|
  {
    if s == [] then []
    else
      var i := LineEnd(s);
      if i == |s| then [s]
      else
        var width := if s[i] == '\r' && i + 1 < |s| && s[i + 1] == '\n' then 2 else 1;
        [s[..i]] + SplitLines(s[i + width..])
  }

  /** `splitlines()` undoes `"\n".join(ls)` unless the last line is empty (Python drops it). */
  lemma {:induction false} SplitLinesJoin(ls: seq<string>)
    requires forall i :: 0 <= i < |ls| ==> NoLineBreak(ls[i])
    requires ls == [] || ls[|ls| - 1] != []
    ensures SplitLines(Join("\n", ls)) == ls
  {
    if |ls| == 0 {
    } else if |ls| == 1 {
      LineEndOf(ls[0], []);
      assert ls[0] + [] == ls[0];
    } else {
      var rest := Join("\n", ls[1..]);
      var s := ls[0] + "\n" + rest;
      assert Join("\n", ls) == s;
      assert s == ls[0] + ("\n" + rest);
      LineEndOf(ls[0], "\n" + rest);
      assert s[..|ls[0]|] == ls[0];
      assert s[|ls[0]| + 1..] == rest;
      SplitLinesJoin(ls[1..]);
    }
  }

  /** Joining words whose ends are not whitespace gives a string `strip()` leaves alone. */
  lemma {:induction false} JoinIsTrimmed(sep: string, ts: seq<string>)
    requires forall i :: 0 <= i < |ts| ==> ts[i] != [] && IsTrimmed(ts[i])
    ensures IsTrimmed(Join(sep, ts))
    ensures |ts| > 0 ==> Join(sep, ts) != []
  {
    if |ts| > 1 {
      JoinIsTrimmed(sep, ts[1..]);
      var s := ts[0] + sep + Join(sep, ts[1..]);
      assert s[0] == ts[0][0];
      assert s[|s| - 1] == Join(sep, ts[1..])[|Join(sep, ts[1..])| - 1];
    }
  }
}
