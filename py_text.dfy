/** The pieces of Python's `str` that the assistant relies on: `isspace`,
    `strip`, `splitlines` and `"\n".join`, stated over Dafny strings. */
module PyText {

  /** `c.isspace()`: the characters Python treats as whitespace, which are also
      the ones `str.strip()` removes and `\s` matches in a `str` pattern. */
  predicate IsSpace(c: char) {
    var n := c as int;
    (0x09 <= n <= 0x0D) || (0x1C <= n <= 0x20) || n == 0x85 || n == 0xA0 || n == 0x1680
    || (0x2000 <= n <= 0x200A) || n == 0x2028 || n == 0x2029 || n == 0x202F
    || n == 0x205F || n == 0x3000
  }

  /** The line boundaries `str.splitlines()` recognises; "\r\n" counts as one. */
  predicate IsLineBreak(c: char) {
    var n := c as int;
    (0x0A <= n <= 0x0D) || (0x1C <= n <= 0x1E) || n == 0x85 || n == 0x2028 || n == 0x2029
  }

  predicate NoLineBreak(s: string) {
    forall i :: 0 <= i < |s| ==> !IsLineBreak(s[i])
  }

  predicate AllSpace(s: string) {
    forall i :: 0 <= i < |s| ==> IsSpace(s[i])
  }

  /** `s.lstrip()`: drops the leading whitespace and nothing else. */
  function TrimStart(s: string): (r: string)
    ensures |r| <= |s| && r == s[|s| - |r|..]
    ensures AllSpace(s[..|s| - |r|])
    ensures r == [] || !IsSpace(r[0])
  {
    var i := SpaceRunEnd(s, 0);
    assert |s| - |s[i..]| == i;
    s[i..]
  }

  /** Where the run of whitespace that starts at `k` ends. */
  function SpaceRunEnd(s: string, k: nat): (i: nat)
    requires k <= |s|
    ensures k <= i <= |s|
    ensures forall j :: k <= j < i ==> IsSpace(s[j])
    ensures i < |s| ==> !IsSpace(s[i])
    decreases |s| - k
  {
    if k == |s| || !IsSpace(s[k]) then k else SpaceRunEnd(s, k + 1)
  }

  /** The run ends at the only place that fits: whitespace before it and a
      non-space (or the end of the string) at it. */
  lemma SpaceRunEndAt(s: string, i: nat)
    requires i <= |s| && forall j :: 0 <= j < i ==> IsSpace(s[j])
    requires i < |s| ==> !IsSpace(s[i])
    ensures SpaceRunEnd(s, 0) == i
  {
  }

  /** `s.rstrip()`: drops the trailing whitespace and nothing else. */
  function TrimEnd(s: string): (r: string)
    ensures |r| <= |s| && r == s[..|r|]
    ensures AllSpace(s[|r|..])
    ensures r == [] || !IsSpace(r[|r| - 1])
  {
    var i := SpaceRunStart(s, |s|);
    assert forall j :: 0 <= j < |s| - i ==> s[i..][j] == s[i + j];
    s[..i]
  }

  /** Where the run of whitespace that ends at `k` starts. */
  function SpaceRunStart(s: string, k: nat): (i: nat)
    requires k <= |s|
    ensures i <= k
    ensures forall j :: i <= j < k ==> IsSpace(s[j])
    ensures 0 < i ==> !IsSpace(s[i - 1])
  {
    if k == 0 || !IsSpace(s[k - 1]) then k else SpaceRunStart(s, k - 1)
  }

  /** `s.strip()`: what is left once the whitespace on both ends is gone;
      it is empty exactly when `s` is all whitespace. */
  function Strip(s: string): (r: string)
    ensures |r| <= |s|
    ensures r == [] || (!IsSpace(r[0]) && !IsSpace(r[|r| - 1]))
    ensures r == [] <==> AllSpace(s)
  {
    var t := TrimStart(s);
    StripSlice(s, t, TrimEnd(t));
    TrimEnd(t)
  }

  /** `s.strip()` is the slice of `s` that starts where `lstrip` stops, with
      only whitespace before and after it. */
  lemma StripIsSlice(s: string)
    ensures var r, start := Strip(s), |s| - |TrimStart(s)|;
            start + |r| <= |s| && r == s[start..start + |r|]
            && AllSpace(s[..start]) && AllSpace(s[start + |r|..])
  {
    var t := TrimStart(s);
    StripSlice(s, t, TrimEnd(t));
  }

  lemma StripSlice(s: string, t: string, r: string)
    requires |t| <= |s| && t == s[|s| - |t|..] && AllSpace(s[..|s| - |t|])
    requires t == [] || !IsSpace(t[0])
    requires |r| <= |t| && r == t[..|r|] && AllSpace(t[|r|..])
    ensures r == [] <==> AllSpace(s)
    ensures var start := |s| - |t|;
            r == s[start..start + |r|] && AllSpace(s[..start]) && AllSpace(s[start + |r|..])
  {
    var start := |s| - |t|;
    assert t == s[start..];
    assert s[start + |r|..] == t[|r|..];
    assert r == s[start..start + |r|];
    if r == [] {
      assert t == [];
      assert s[..start] == s;
    } else {
      assert !IsSpace(s[start]);
    }
  }

  /** A string already free of whitespace at both ends is its own strip. */
  lemma StripTrimmed(s: string)
    requires s == [] || (!IsSpace(s[0]) && !IsSpace(s[|s| - 1]))
    ensures Strip(s) == s
  {
  }

  /** Stripping twice is stripping once. */
  lemma StripIdempotent(s: string)
    ensures Strip(Strip(s)) == Strip(s)
  {
    StripTrimmed(Strip(s));
  }

  /** A string opening with a non-space keeps that character first once stripped. */
  lemma StripKeepsFirst(s: string)
    requires s != [] && !IsSpace(s[0])
    ensures Strip(s) != [] && Strip(s)[0] == s[0]
  {
    assert TrimStart(s) == s;
    assert !AllSpace(s);
  }

  /** A prefix that opens and ends with a non-space character survives
      stripping whole, at the head of the result. */
  lemma StripKeepsPrefix(s: string, n: nat)
    requires 0 < n <= |s| && !IsSpace(s[0]) && !IsSpace(s[n - 1])
    ensures |Strip(s)| >= n && Strip(s)[..n] == s[..n]
  {
    SpaceRunEndAt(s, 0);
    assert TrimStart(s) == s;
    StripIsSlice(s);
    var r := Strip(s);
    assert r == s[..|r|] && AllSpace(s[|r|..]);
  }

  /** A line opening with a non-space character strips to one of its own
      prefixes, with only whitespace after it. */
  lemma StripOpensSlice(s: string)
    requires s != [] && !IsSpace(s[0])
    ensures |Strip(s)| <= |s| && Strip(s) == s[..|Strip(s)|] && AllSpace(s[|Strip(s)|..])
  {
    SpaceRunEndAt(s, 0);
    assert TrimStart(s) == s;
    StripIsSlice(s);
  }

  /** Index of the first line boundary in `s`, or `|s|` when there is none. */
  function FirstBreak(s: string): (i: nat)
    ensures i <= |s|
    ensures forall j :: 0 <= j < i ==> !IsLineBreak(s[j])
    ensures i < |s| ==> IsLineBreak(s[i])
  {
    BreakFrom(s, 0)
  }

  /** The first boundary at or after position `k`, scanning by index. */
  function BreakFrom(s: string, k: nat): (i: nat)
    requires k <= |s|
    ensures k <= i <= |s|
    ensures forall j :: k <= j < i ==> !IsLineBreak(s[j])
    ensures i < |s| ==> IsLineBreak(s[i])
    decreases |s| - k
  {
    if k == |s| || IsLineBreak(s[k]) then k else BreakFrom(s, k + 1)
  }

  /** `s.splitlines()`: the lines without their terminators; a trailing
      terminator opens no extra line and "" has no lines at all. */
  function SplitLines(s: string): (lines: seq<string>)
    ensures forall k :: 0 <= k < |lines| ==> NoLineBreak(lines[k])
    ensures |lines| <= |s|
    ensures lines == [] <==> s == []
    decreases |s|
  {
    if s == [] then []
    else
      var i := FirstBreak(s);
      if i == |s| then [s]
      else
        [s[..i]] + SplitLines(s[i + BreakWidth(s, i)..])
  }

  /** The length of the boundary at `i`: two for "\r\n", one otherwise. */
  function BreakWidth(s: string, i: nat): (w: nat)
    requires i < |s|
    ensures 1 <= w <= |s| - i
  {
    if s[i] == '\r' && i + 1 < |s| && s[i + 1] == '\n' then 2 else 1
  }

  /** `"\n".join(lines)`. */
  function JoinLines(lines: seq<string>): string {
    if |lines| == 0 then ""
    else if |lines| == 1 then lines[0]
    else lines[0] + "\n" + JoinLines(lines[1..])
  }

  /** Joining gives "" only for no lines or a single empty one. */
  lemma JoinLinesEmpty(lines: seq<string>)
    ensures JoinLines(lines) == "" <==> lines == [] || lines == [""]
  {
    if |lines| > 1 {
      assert JoinLines(lines)[|lines[0]|] == '\n';
    }
  }

  lemma FirstBreakAfter(a: string, t: string)
    requires NoLineBreak(a)
    requires t != [] && IsLineBreak(t[0])
    ensures FirstBreak(a + t) == |a|
  {
    var s := a + t;
    assert s[|a|] == t[0];
    assert forall j :: 0 <= j < |a| ==> s[j] == a[j];
  }

  lemma FirstBreakNone(s: string)
    requires NoLineBreak(s)
    ensures FirstBreak(s) == |s|
  {
  }

  /** Joining lines that hold no boundary and splitting again gives the lines
      back, provided the last one is not empty (its terminator would vanish). */
  lemma {:induction false} SplitJoin(lines: seq<string>)
    requires forall k :: 0 <= k < |lines| ==> NoLineBreak(lines[k])
    requires lines == [] || lines[|lines| - 1] != ""
    ensures SplitLines(JoinLines(lines)) == lines
  {
    if |lines| == 1 {
      FirstBreakNone(lines[0]);
    } else if |lines| > 1 {
      var a, t := lines[0], JoinLines(lines[1..]);
      var s := a + "\n" + t;
      FirstBreakAfter(a, "\n" + t);
      assert a + ("\n" + t) == s;
      assert s[..|a|] == a;
      assert s[|a| + 1..] == t;
      SplitJoin(lines[1..]);
      assert SplitLines(s) == [a] + lines[1..];
    }
  }

  /** A final "\n" after the joined lines opens no extra line. */
  lemma {:induction false} SplitJoinTerminated(lines: seq<string>)
    requires lines != []
    requires forall k :: 0 <= k < |lines| ==> NoLineBreak(lines[k])
    ensures SplitLines(JoinLines(lines) + "\n") == lines
  {
    var a := lines[0];
    if |lines| == 1 {
      FirstBreakAfter(a, "\n");
      var s := a + "\n";
      assert s[..|a|] == a;
      assert s[|a| + 1..] == [];
    } else {
      var t := JoinLines(lines[1..]) + "\n";
      var s := a + "\n" + t;
      assert JoinLines(lines) + "\n" == s;
      FirstBreakAfter(a, "\n" + t);
      assert a + ("\n" + t) == s;
      assert s[..|a|] == a;
      assert s[|a| + 1..] == t;
      SplitJoinTerminated(lines[1..]);
      assert SplitLines(s) == [a] + lines[1..];
    }
  }

  lemma NoLineBreakAppend(a: string, b: string)
    requires NoLineBreak(a) && NoLineBreak(b)
    ensures NoLineBreak(a + b)
  {
    var s := a + b;
    forall i | 0 <= i < |s| ensures !IsLineBreak(s[i]) {
      if i < |a| { assert s[i] == a[i]; } else { assert s[i] == b[i - |a|]; }
    }
  }

  /** A "\n" at the first boundary ends the first line and nothing more. */
  lemma SplitAtNewline(s: string, i: nat)
    requires i == FirstBreak(s) && i < |s| && s[i] == '\n'
    ensures SplitLines(s) == [s[..i]] + SplitLines(s[i + 1..])
  {
    SplitLinesAt(s);
    NewlineWidth(s, i);
  }

  lemma NewlineWidth(s: string, i: nat)
    requires i < |s| && s[i] == '\n'
    ensures BreakWidth(s, i) == 1
  {
  }

  /** One step of `SplitLines` on a string that holds a boundary. */
  lemma SplitLinesAt(s: string)
    requires FirstBreak(s) < |s|
    ensures var i := FirstBreak(s);
            SplitLines(s) == [s[..i]] + SplitLines(s[i + BreakWidth(s, i)..])
  {
  }

  /** Splitting text whose only boundaries are "\n" and joining with "\n"
      gives the text back, provided it does not end in "\n". */
  lemma {:induction false} JoinSplit(s: string)
    requires forall i :: 0 <= i < |s| ==> IsLineBreak(s[i]) ==> s[i] == '\n'
    requires s == [] || s[|s| - 1] != '\n'
    ensures JoinLines(SplitLines(s)) == s
    decreases |s|
  {
    if s != [] {
      var i := FirstBreak(s);
      if i == |s| {
        assert SplitLines(s) == [s];
      } else {
        JoinSplitStep(s, s[..i], s[i + 1..]);
      }
    }
  }

  lemma {:induction false} JoinSplitStep(s: string, line: string, rest: string)
    requires forall i :: 0 <= i < |s| ==> IsLineBreak(s[i]) ==> s[i] == '\n'
    requires s != [] && s[|s| - 1] != '\n'
    requires FirstBreak(s) < |s| && line == s[..FirstBreak(s)] && rest == s[FirstBreak(s) + 1..]
    ensures JoinLines(SplitLines(s)) == s
    decreases |s|, 0
  {
    SplitAtNewline(s, FirstBreak(s));
    JoinSplit(rest);
    JoinCons(line, SplitLines(rest));
    SplitAround(s, FirstBreak(s));
  }

  lemma SplitAround(s: string, i: nat)
    requires i < |s|
    ensures s == s[..i] + [s[i]] + s[i + 1..]
  {
  }

  lemma JoinCons(line: string, lines: seq<string>)
    requires lines != []
    ensures JoinLines([line] + lines) == line + "\n" + JoinLines(lines)
  {
    assert ([line] + lines)[1..] == lines;
  }
}
