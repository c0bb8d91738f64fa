/** `format_response`: the three passes that turn the model's answer into
    coloured terminal text — fence stripping, bold highlighting and per-line
    colouring — each a function over strings, with the regular-expression
    scans written out as left-to-right recursion. */
module Formatter {
  import opened PyText
  import opened Wrappers

  /** The escape sequences the formatter writes: the colour of a bold span,
      of a command line and of a prose line, and the reset closing each. */
  datatype Palette = Palette(bold: string, command: string, text: string, reset: string)

  /** The assistant's palette: Nord colours as 24-bit ANSI escape sequences. */
  function Nord(): Palette {
    Palette(
      "\U{1B}[38;2;235;203;139m",
      "\U{1B}[38;2;163;190;140m",
      "\U{1B}[38;2;129;161;193m",
      "\U{1B}[0m")
  }

  /** What the proofs ask of a palette: no escape sequence holds a line
      boundary, and the two line colours are non-empty, equally long and
      different, so the colour of a line tells its class. */
  predicate WellFormed(p: Palette) {
    && NoLineBreak(p.bold) && NoLineBreak(p.command) && NoLineBreak(p.text) && NoLineBreak(p.reset)
    && p.command != [] && |p.command| == |p.text| && p.command != p.text
  }

  /** The assistant's palette is well formed: the two line colours differ in
      their red component. */
  lemma NordWellFormed()
    ensures WellFormed(Nord())
  {
    NordColorsDiffer();
    NordHasNoLineBreak();
  }

  lemma NordColorsDiffer()
    ensures |Nord().command| == |Nord().text| && Nord().command != Nord().text
  {
    assert Nord().command[8] != Nord().text[8];
  }

  lemma NordHasNoLineBreak()
    ensures NoLineBreak(Nord().bold) && NoLineBreak(Nord().command)
    ensures NoLineBreak(Nord().text) && NoLineBreak(Nord().reset)
  {
    BoldHasNoLineBreak();
    CommandHasNoLineBreak();
    TextHasNoLineBreak();
    ResetHasNoLineBreak();
  }

  lemma BoldHasNoLineBreak() ensures NoLineBreak(Nord().bold) {}
  lemma CommandHasNoLineBreak() ensures NoLineBreak(Nord().command) {}
  lemma TextHasNoLineBreak() ensures NoLineBreak(Nord().text) {}
  lemma ResetHasNoLineBreak() ensures NoLineBreak(Nord().reset) {}

  /** The command names that mark a line as a shell command. */
  function CommandWords(): seq<string> {
    ["ls", "cd", "cat", "grep", "echo", "pwd", "mkdir", "rm", "touch", "nano", "vim"]
  }

  // ---------------------------------------------------------------------------
  // Pass 1: delete every "```bash" and "```" marker
  // ---------------------------------------------------------------------------

  /** Three backticks start at index `i`. */
  predicate FenceAt(s: string, i: int) {
    0 <= i && i + 3 <= |s| && s[i] == '`' && s[i + 1] == '`' && s[i + 2] == '`'
  }

  /** "```bash" starts at index 0. */
  predicate BashFenceFirst(s: string) {
    FenceAt(s, 0) && 7 <= |s| && s[3] == 'b' && s[4] == 'a' && s[5] == 's' && s[6] == 'h'
  }

  predicate NoFence(s: string) {
    forall i :: 0 <= i < |s| ==> !FenceAt(s, i)
  }

  predicate NoBacktick(s: string) {
    forall i :: 0 <= i < |s| ==> s[i] != '`'
  }

  /** Two backticks open the string. */
  predicate BacktickPairFirst(s: string) {
    2 <= |s| && s[0] == '`' && s[1] == '`'
  }

  /** Leftmost scan of the alternation: at each position "```bash" is tried
      before "```"; a match is dropped and the scan resumes after it,
      otherwise the character is kept. */
  function StripFences(s: string): (r: string)
    ensures |r| <= |s|
    decreases |s|
  {
    if BashFenceFirst(s) then StripFences(s[7..])
    else if FenceAt(s, 0) then StripFences(s[3..])
    else if s == [] then []
    else [s[0]] + StripFences(s[1..])
  }

  /** A string that does not open with two backticks cannot turn into one that does. */
  lemma NoPairStaysNoPair(s: string)
    requires !BacktickPairFirst(s)
    ensures !BacktickPairFirst(StripFences(s))
  {
    if s != [] && s[0] == '`' && |s| >= 2 {
      assert !FenceAt(s[1..], 0);
      assert StripFences(s[1..]) == [s[1]] + StripFences(s[2..]);
    }
  }

  /** After the pass no "```" is left anywhere: a kept backtick is never
      followed by two more, because then the scan would have matched there. */
  lemma {:induction false} StripFencesLeavesNoFence(s: string)
    ensures NoFence(StripFences(s))
    decreases |s|
  {
    if BashFenceFirst(s) {
      StripFencesLeavesNoFence(s[7..]);
    } else if FenceAt(s, 0) {
      StripFencesLeavesNoFence(s[3..]);
    } else if s != [] {
      var t := StripFences(s[1..]);
      var r := [s[0]] + t;
      StripFencesLeavesNoFence(s[1..]);
      if s[0] == '`' {
        NoPairStaysNoPair(s[1..]);
      }
      forall i ensures !FenceAt(r, i) {
        if 1 <= i { assert !FenceAt(t, i - 1); }
      }
    }
  }

  /** Text without "```" passes through the stripping pass unchanged. */
  lemma {:induction false} StripFencesKeepsFenceFree(s: string)
    requires NoFence(s)
    ensures StripFences(s) == s
    decreases |s|
  {
    if s != [] {
      assert !FenceAt(s, 0);
      forall i ensures !FenceAt(s[1..], i) {
        assert !FenceAt(s, i + 1);
      }
      StripFencesKeepsFenceFree(s[1..]);
    }
  }

  /** Stripping twice is stripping once. */
  lemma StripFencesIdempotent(s: string)
    ensures StripFences(StripFences(s)) == StripFences(s)
  {
    StripFencesLeavesNoFence(s);
    StripFencesKeepsFenceFree(StripFences(s));
  }

  /** A prefix with no backtick passes through unchanged and does not
      disturb the scan of what follows it. */
  lemma {:induction false} StripFencesKeepsPlainPrefix(a: string, b: string)
    requires NoBacktick(a)
    ensures StripFences(a + b) == a + StripFences(b)
  {
    if a == [] {
      assert a + b == b;
    } else {
      var s := a + b;
      assert s[0] == a[0];
      assert s[1..] == a[1..] + b;
      StripFencesKeepsPlainPrefix(a[1..], b);
      assert StripFences(s) == [a[0]] + StripFences(s[1..]);
    }
  }

  // ---------------------------------------------------------------------------
  // Pass 2: colour each "**X**" span, X being one or more characters other
  // than a newline, matched lazily
  // ---------------------------------------------------------------------------

  predicate NewlineFree(x: string) {
    forall j :: 0 <= j < |x| ==> x[j] != '\n'
  }

  /** With `rest` the text after an opening "**", a closing "**" can start at
      `k`: the group `rest[..k]` is non-empty and `.` matches all of it. */
  predicate CloseAt(rest: string, k: int) {
    1 <= k && k + 2 <= |rest| && rest[k] == '*' && rest[k + 1] == '*' && NewlineFree(rest[..k])
  }

  /** The lazy `.+?` grows the group one character at a time from length `k`
      and stops at the first closing "**"; a newline ends the attempt. */
  function CloseFrom(rest: string, k: nat): (r: Option<nat>)
    requires 1 <= k <= |rest|
    requires NewlineFree(rest[..k - 1])
    requires forall j :: 1 <= j < k ==> !CloseAt(rest, j)
    ensures r.Some? ==> CloseAt(rest, r.value) && forall j :: 1 <= j < r.value ==> !CloseAt(rest, j)
    ensures r.None? ==> forall j :: !CloseAt(rest, j)
    decreases |rest| - k
  {
    if rest[k - 1] == '\n' then
      assert forall j :: k <= j ==> !CloseAt(rest, j) by {
        forall j | k <= j && j + 2 <= |rest| ensures !NewlineFree(rest[..j]) {
          assert rest[..j][k - 1] == '\n';
        }
      }
      None
    else if k + 2 <= |rest| && rest[k] == '*' && rest[k + 1] == '*' then
      assert rest[..k] == rest[..k - 1] + [rest[k - 1]];
      Some(k)
    else if k < |rest| then
      assert rest[..k] == rest[..k - 1] + [rest[k - 1]];
      CloseFrom(rest, k + 1)
    else
      None
  }

  /** Where the closing "**" of a bold span starts, if the opening "**" is
      followed by one on the same line: always the nearest one. */
  function BoldEnd(rest: string): (r: Option<nat>)
    ensures r.Some? ==> CloseAt(rest, r.value) && forall j :: 1 <= j < r.value ==> !CloseAt(rest, j)
    ensures r.None? ==> forall j :: !CloseAt(rest, j)
  {
    if rest == [] then None else CloseFrom(rest, 1)
  }

  /** Two texts with the same closing positions have the same bold end. */
  lemma BoldEndByCloses(a: string, b: string)
    requires forall k :: CloseAt(a, k) <==> CloseAt(b, k)
    ensures BoldEnd(a) == BoldEnd(b)
  {
  }

  /** Scan for "**X**" left to right: a match is replaced by the coloured
      group and the scan resumes after it; otherwise one character is kept. */
  function Embolden(p: Palette, s: string): (r: string)
    decreases |s|
  {
    if |s| >= 2 && s[0] == '*' && s[1] == '*' then
      match BoldEnd(s[2..])
      case Some(k) => p.bold + s[2..2 + k] + p.reset + Embolden(p, s[k + 4..])
      case None => [s[0]] + Embolden(p, s[1..])
    else if s == [] then []
    else [s[0]] + Embolden(p, s[1..])
  }

  predicate NoStarPair(s: string) {
    forall i :: 0 <= i < |s| - 1 ==> !(s[i] == '*' && s[i + 1] == '*')
  }

  /** Text with no "**" is left unchanged by the bold pass. */
  lemma {:induction false} EmboldenKeepsPlain(p: Palette, s: string)
    requires NoStarPair(s)
    ensures Embolden(p, s) == s
    decreases |s|
  {
    if s != [] {
      assert NoStarPair(s[1..]) by {
        forall i | 0 <= i < |s[1..]| - 1 ensures !(s[1..][i] == '*' && s[1..][i + 1] == '*') {
          assert s[1..][i] == s[i + 1] && s[1..][i + 1] == s[i + 2];
        }
      }
      EmboldenKeepsPlain(p, s[1..]);
    }
  }

  /** A prefix with no '*' passes through unchanged and does not disturb the
      scan of what follows it. */
  lemma {:induction false} EmboldenKeepsPlainPrefix(p: Palette, a: string, b: string)
    requires NoStar(a)
    ensures Embolden(p, a + b) == a + Embolden(p, b)
  {
    if a == [] {
      assert a + b == b;
    } else {
      var s := a + b;
      assert s[0] == a[0];
      assert s[1..] == a[1..] + b;
      EmboldenKeepsPlainPrefix(p, a[1..], b);
      KeepsFirst(p, s);
    }
  }

  /** The bold pass adds no line boundary to text that has none. */
  lemma {:induction false} EmboldenKeepsNoLineBreak(p: Palette, s: string)
    requires WellFormed(p)
    requires NoLineBreak(s)
    ensures NoLineBreak(Embolden(p, s))
    decreases |s|
  {
    if |s| >= 2 && s[0] == '*' && s[1] == '*' && BoldEnd(s[2..]).Some? {
      var k := BoldEnd(s[2..]).value;
      var x := s[2..2 + k];
      assert NoLineBreak(x) by {
        forall i | 0 <= i < |x| ensures !IsLineBreak(x[i]) { assert x[i] == s[2 + i]; }
      }
      assert NoLineBreak(p.bold) && NoLineBreak(p.reset);
      EmboldenKeepsNoLineBreak(p, s[k + 4..]);
      NoLineBreakAppend(p.bold, s[2..2 + k]);
      NoLineBreakAppend(p.bold + s[2..2 + k], p.reset);
      NoLineBreakAppend(p.bold + s[2..2 + k] + p.reset, Embolden(p, s[k + 4..]));
    } else if s != [] {
      KeepsFirst(p, s);
      EmboldenKeepsNoLineBreak(p, s[1..]);
      NoLineBreakAppend([s[0]], Embolden(p, s[1..]));
    }
  }

  /** A span "**X**" whose group X is non-empty, on one line and holds no
      earlier closing "**" (so that the lazy group stops at the end of X)
      becomes exactly p.bold + X + p.reset, and the scan goes on after it. */
  lemma EmboldenSpan(p: Palette, x: string, rest: string)
    requires x != [] && NewlineFree(x) && NoStarPair(x[1..] + "*")
    ensures Embolden(p, "**" + x + "**" + rest) == p.bold + x + p.reset + Embolden(p, rest)
  {
    var s := "**" + x + "**" + rest;
    var after := s[2..];
    var inner := x[1..] + "*";
    assert after == x + "**" + rest;
    assert after[..|x|] == x;
    assert CloseAt(after, |x|);
    forall j | 1 <= j < |x| ensures !CloseAt(after, j) {
      assert after[j] == x[j] == inner[j - 1];
      assert after[j + 1] == inner[j];
    }
    var e := BoldEnd(after);
    assert e == Some(|x|);
    assert s[2..2 + |x|] == x;
    assert s[|x| + 4..] == rest;
  }

  /** A group with no '*' at all never closes early. */
  lemma NoStarNoEarlyClose(x: string)
    requires x != [] && NoStar(x)
    ensures NoStarPair(x[1..] + "*")
  {
    var inner := x[1..] + "*";
    forall i | 0 <= i < |inner| - 1 ensures !(inner[i] == '*' && inner[i + 1] == '*') {
      assert inner[i] == x[i + 1];
    }
  }

  predicate NoStar(s: string) {
    forall i :: 0 <= i < |s| ==> s[i] != '*'
  }

  /** A line with a single bold span: only the span changes. */
  lemma EmboldenOneSpan(p: Palette, pre: string, x: string, post: string)
    requires NoStar(pre) && NoStar(x) && NoStar(post) && x != [] && NewlineFree(x)
    ensures Embolden(p, pre + "**" + x + "**" + post) == pre + p.bold + x + p.reset + post
  {
    assert pre + "**" + x + "**" + post == pre + ("**" + x + "**" + post);
    EmboldenKeepsPlainPrefix(p, pre, "**" + x + "**" + post);
    NoStarNoEarlyClose(x);
    EmboldenSpan(p, x, post);
    assert NoStarPair(post) by {
      forall i | 0 <= i < |post| - 1 ensures !(post[i] == '*' && post[i + 1] == '*') { }
    }
    EmboldenKeepsPlain(p, post);
  }

  /** Closing positions after an opening marker never reach past a newline. */
  lemma ClosesBeforeNewline(a: string, b: string)
    ensures forall k :: CloseAt(a + "\n" + b, k) <==> CloseAt(a, k)
  {
    var s := a + "\n" + b;
    forall k ensures CloseAt(s, k) <==> CloseAt(a, k) {
      if 1 <= k && k + 2 <= |a| {
        assert s[..k] == a[..k];
        assert s[k] == a[k] && s[k + 1] == a[k + 1];
      } else if 1 <= k && k + 2 <= |s| {
        if k + 1 == |a| {
          assert s[k + 1] == '\n';
        } else if k == |a| {
          assert s[k] == '\n';
        } else {
          assert s[..k][|a|] == '\n';
        }
      }
    }
  }

  /** Bold spans never cross a newline: the pass works line by line. */
  lemma {:induction false} EmboldenByLine(p: Palette, a: string, b: string)
    ensures Embolden(p, a + "\n" + b) == Embolden(p, a) + "\n" + Embolden(p, b)
    decreases |a|
  {
    var s := a + "\n" + b;
    if a == [] {
      assert s == "\n" + b;
      assert s[1..] == b;
    } else if |a| >= 2 && a[0] == '*' && a[1] == '*' {
      assert s[2..] == a[2..] + "\n" + b;
      ClosesBeforeNewline(a[2..], b);
      BoldEndByCloses(s[2..], a[2..]);
      var e := BoldEnd(a[2..]);
      if e.Some? {
        EmboldenByLine(p, a[e.value + 4..], b);
        ByLineAfterSpan(p, a, b, e.value);
      } else {
        EmboldenByLine(p, a[1..], b);
        ByLineAfterChar(p, a, b);
      }
    } else {
      EmboldenByLine(p, a[1..], b);
      ByLineAfterChar(p, a, b);
    }
  }

  lemma ByLineAfterSpan(p: Palette, a: string, b: string, k: nat)
    requires |a| >= 2 && a[0] == '*' && a[1] == '*'
    requires BoldEnd(a[2..]) == Some(k) && BoldEnd((a + "\n" + b)[2..]) == Some(k)
    requires Embolden(p, a[k + 4..] + "\n" + b) == Embolden(p, a[k + 4..]) + "\n" + Embolden(p, b)
    ensures Embolden(p, a + "\n" + b) == Embolden(p, a) + "\n" + Embolden(p, b)
  {
    var s := a + "\n" + b;
    SpanStep(p, s, k);
    SpanStep(p, a, k);
    SpanSlices(a, b, k);
    SpanLine(p.bold + a[2..2 + k] + p.reset, Embolden(p, a[k + 4..]), Embolden(p, b));
  }

  /** A bold span opening the text is coloured and the scan resumes after it. */
  lemma SpanStep(p: Palette, s: string, k: nat)
    requires |s| >= 2 && s[0] == '*' && s[1] == '*' && BoldEnd(s[2..]) == Some(k)
    ensures k + 4 <= |s| && Embolden(p, s) == p.bold + s[2..2 + k] + p.reset + Embolden(p, s[k + 4..])
  {
  }

  lemma SpanSlices(a: string, b: string, k: nat)
    requires k + 4 <= |a|
    ensures var s := a + "\n" + b;
            s[2..2 + k] == a[2..2 + k] && s[k + 4..] == a[k + 4..] + "\n" + b
  {
  }

  lemma SpanLine(head: string, tail: string, rest: string)
    ensures head + (tail + "\n" + rest) == (head + tail) + "\n" + rest
  {
  }

  lemma ByLineAfterChar(p: Palette, a: string, b: string)
    requires a != []
    requires |a| >= 2 && a[0] == '*' && a[1] == '*' ==> BoldEnd((a + "\n" + b)[2..]) == BoldEnd(a[2..]) == None
    requires Embolden(p, a[1..] + "\n" + b) == Embolden(p, a[1..]) + "\n" + Embolden(p, b)
    ensures Embolden(p, a + "\n" + b) == Embolden(p, a) + "\n" + Embolden(p, b)
  {
    var s := a + "\n" + b;
    AfterFirst(a, b);
    KeepsFirst(p, s);
    KeepsFirst(p, a);
    ConsLine(a[0], Embolden(p, a[1..]), Embolden(p, b));
  }

  /** How the first characters of `a + "\n" + b` relate to those of `a`. */
  lemma AfterFirst(a: string, b: string)
    requires a != []
    ensures var s := a + "\n" + b;
            && s[0] == a[0] && s[1..] == a[1..] + "\n" + b
            && (|s| >= 2 && s[0] == '*' && s[1] == '*' ==> |a| >= 2 && a[1] == '*')
  {
    var s := a + "\n" + b;
    if |a| == 1 { assert s[1] == '\n'; } else { assert s[1] == a[1]; }
  }

  lemma ConsLine(c: char, x: string, y: string)
    ensures [c] + (x + "\n" + y) == ([c] + x) + "\n" + y
  {
  }

  /** Where no bold span opens at index 0, the first character is kept. */
  lemma KeepsFirst(p: Palette, s: string)
    requires s != []
    requires |s| >= 2 && s[0] == '*' && s[1] == '*' ==> BoldEnd(s[2..]) == None
    ensures Embolden(p, s) == [s[0]] + Embolden(p, s[1..])
  {
  }

  // ---------------------------------------------------------------------------
  // Pass 3: colour each line as a command or as text, rejoin with "\n"
  // ---------------------------------------------------------------------------

  /** `\w` on the ASCII range: letters, digits and the underscore. */
  predicate IsWordChar(c: char) {
    ('a' <= c <= 'z') || ('A' <= c <= 'Z') || ('0' <= c <= '9') || c == '_'
  }

  /** A word character is never whitespace. */
  lemma WordCharIsNotSpace(c: char)
    requires IsWordChar(c)
    ensures !IsSpace(c)
  {
  }

  /** `t` begins with the word `w` followed by `\b`: the end of `t` or a
      character that is not a word character. */
  predicate StartsWithWord(t: string, w: string) {
    |w| <= |t| && t[..|w|] == w && (|w| == |t| || !IsWordChar(t[|w|]))
  }

  /** The alternation of whole words from position `j` on, tried one word
      after another as the regular-expression engine tries the branches of
      `(ls|cd|...)\b`. */
  predicate MatchesFrom(t: string, words: seq<string>, j: nat)
    decreases |words| - j
  {
    j < |words| && (StartsWithWord(t, words[j]) || MatchesFrom(t, words, j + 1))
  }

  /** Trying the branches in order finds a match exactly when some word of
      the list, from position `j` on, opens `t` as a whole word. */
  lemma {:induction false} MatchesFromMeans(t: string, words: seq<string>, j: nat)
    ensures MatchesFrom(t, words, j) <==> exists k :: j <= k < |words| && StartsWithWord(t, words[k])
    decreases |words| - j
  {
    if j < |words| {
      MatchesFromMeans(t, words, j + 1);
    }
  }

  /** When every word from position `j` on but the one at `i` opens with a
      letter other than the first of `t`, and the one at `i` does not fit
      either, no branch matches. */
  lemma {:induction false} OnlyOneWordFits(t: string, words: seq<string>, i: nat, j: nat)
    requires forall k :: j <= k < |words| && k != i ==> words[k] != [] && (t == [] || words[k][0] != t[0])
    requires j <= i < |words| ==> !StartsWithWord(t, words[i])
    ensures !MatchesFrom(t, words, j)
    decreases |words| - j
  {
    if j < |words| {
      if j != i {
        var w := words[j];
        assert !StartsWithWord(t, w) by {
          if |w| <= |t| && t != [] { assert t[..|w|][0] == t[0]; }
        }
      }
      OnlyOneWordFits(t, words, i, j + 1);
    }
  }

  /** The heuristic of `colorize`, decided on the stripped line alone: it opens
      with '#' or '$', or with a whitelisted command name as a whole word. */
  predicate IsCommandLine(line: string) {
    var t := Strip(line);
    (t != [] && (t[0] == '#' || t[0] == '$')) || MatchesFrom(t, CommandWords(), 0)
  }

  /** Wraps the untrimmed line in the command colour or the text colour. */
  function Colorize(p: Palette, line: string): (r: string)
    ensures r == p.command + line + p.reset || r == p.text + line + p.reset
  {
    if IsCommandLine(line) then p.command + line + p.reset else p.text + line + p.reset
  }

  /** The three passes with the colours of `p`. */
  function Format(p: Palette, text: string): string {
    var lines := SplitLines(Embolden(p, StripFences(text)));
    JoinLines(ColorizeAll(p, lines))
  }

  /** Each line coloured on its own, in order. */
  function ColorizeAll(p: Palette, lines: seq<string>): (r: seq<string>)
    ensures |r| == |lines| && forall i :: 0 <= i < |lines| ==> r[i] == Colorize(p, lines[i])
  {
    if lines == [] then [] else [Colorize(p, lines[0])] + ColorizeAll(p, lines[1..])
  }

  /** The whole of `format_response`, in the assistant's own colours. */
  function FormatResponse(text: string): string {
    Format(Nord(), text)
  }

  lemma NoLineBreakJoin3(a: string, b: string, c: string)
    requires NoLineBreak(a) && NoLineBreak(b) && NoLineBreak(c)
    ensures NoLineBreak(a + b + c)
  {
    var s := a + b + c;
    forall i | 0 <= i < |s| ensures !IsLineBreak(s[i]) {
      if i < |a| { assert s[i] == a[i]; }
      else if i < |a| + |b| { assert s[i] == b[i - |a|]; }
      else { assert s[i] == c[i - |a| - |b|]; }
    }
  }

  /** The colour a line receives tells its class: the command colour exactly
      for command lines, the text colour exactly for the others, and the line
      itself is kept whole and untrimmed between colour and reset. */
  lemma ColorizeTells(p: Palette, line: string)
    requires WellFormed(p)
    ensures Colorize(p, line) == p.command + line + p.reset <==> IsCommandLine(line)
    ensures Colorize(p, line) == p.text + line + p.reset <==> !IsCommandLine(line)
  {
    var c, t := p.command + line + p.reset, p.text + line + p.reset;
    assert c[..|p.command|] == p.command && t[..|p.text|] == p.text;
  }

  /** Leading whitespace does not move what `lstrip` leaves. */
  lemma TrimStartSkipsIndent(ws: string, line: string)
    requires AllSpace(ws)
    ensures TrimStart(ws + line) == TrimStart(line)
  {
    var s, k := ws + line, SpaceRunEnd(line, 0);
    forall j | 0 <= j < |ws| + k ensures IsSpace(s[j]) {
      if j >= |ws| { assert s[j] == line[j - |ws|]; }
    }
    if |ws| + k < |s| { assert s[|ws| + k] == line[k]; }
    SpaceRunEndAt(s, |ws| + k);
    assert s[|ws| + k..] == line[k..];
  }

  /** Indenting a line never changes its class. */
  lemma IndentKeepsClass(ws: string, line: string)
    requires AllSpace(ws)
    ensures IsCommandLine(ws + line) == IsCommandLine(line)
  {
    TrimStartSkipsIndent(ws, line);
  }

  /** A blank or whitespace-only line is never taken for a command. */
  lemma BlankLineIsText(line: string)
    requires AllSpace(line)
    ensures !IsCommandLine(line)
  {
    WordsAreLowercase();
    assert Strip(line) == [];
    OnlyOneWordFits([], CommandWords(), |CommandWords()|, 0);
  }

  /** A blank line gets the text colour. */
  lemma BlankLineColors(p: Palette, line: string)
    requires WellFormed(p) && AllSpace(line)
    ensures Colorize(p, line) == p.text + line + p.reset
  {
    BlankLineIsText(line);
    ColorizeTells(p, line);
  }

  /** Whatever follows a '#' or '$' that opens the stripped line, it is a command line. */
  lemma PromptMarksCommand(ws: string, mark: char, rest: string)
    requires AllSpace(ws) && (mark == '#' || mark == '$')
    ensures IsCommandLine(ws + [mark] + rest)
  {
    var line := [mark] + rest;
    assert ws + [mark] + rest == ws + line;
    StripKeepsFirst(line);
    PromptOpensCommand(line);
    IndentKeepsClass(ws, line);
  }

  lemma PromptOpensCommand(line: string)
    requires Strip(line) != [] && (Strip(line)[0] == '#' || Strip(line)[0] == '$')
    ensures IsCommandLine(line)
  {
  }

  lemma WordsAreLowercase()
    ensures forall k :: 0 <= k < |CommandWords()| ==> CommandWords()[k] != [] && 'a' <= CommandWords()[k][0] <= 'z'
  {
  }

  /** Every whitelisted word ends in a lower-case letter. */
  lemma WordsEndInLetters()
    ensures forall k :: 0 <= k < |CommandWords()| ==>
              var w := CommandWords()[k]; w != [] && 'a' <= w[|w| - 1] <= 'z'
  {
  }

  /** What the classifier decides, with the alternation read as "some
      whitelisted word opens the stripped line as a whole word". */
  lemma CommandLineMeans(line: string)
    ensures var t := Strip(line);
            IsCommandLine(line) <==>
              (t != [] && (t[0] == '#' || t[0] == '$'))
              || exists k :: 0 <= k < |CommandWords()| && StartsWithWord(t, CommandWords()[k])
  {
    MatchesFromMeans(Strip(line), CommandWords(), 0);
  }

  /** A whitelisted word, however indented, followed by the end of the line
      or by a character that is not a word character, makes a command line. */
  lemma WordMarksCommand(ws: string, k: nat, rest: string)
    requires AllSpace(ws) && k < |CommandWords()|
    requires rest == [] || !IsWordChar(rest[0])
    ensures IsCommandLine(ws + CommandWords()[k] + rest)
  {
    var w := CommandWords()[k];
    WordHasLetterEnds(k);
    StripKeepsWord(w, rest);
    WordOpensCommand(w + rest, k);
    assert ws + w + rest == ws + (w + rest);
    IndentKeepsClass(ws, w + rest);
  }

  lemma WordHasLetterEnds(k: nat)
    requires k < |CommandWords()|
    ensures var w := CommandWords()[k]; w != [] && !IsSpace(w[0]) && !IsSpace(w[|w| - 1])
  {
    WordsAreLowercase();
    WordsEndInLetters();
  }

  lemma WordOpensCommand(line: string, k: nat)
    requires k < |CommandWords()| && StartsWithWord(Strip(line), CommandWords()[k])
    ensures IsCommandLine(line)
  {
    MatchesFromMeans(Strip(line), CommandWords(), 0);
  }

  /** Stripping a line that opens with a word, and goes on with a non-word
      character or nothing, leaves that word at its head as a whole word. */
  lemma StripKeepsWord(w: string, rest: string)
    requires w != [] && !IsSpace(w[0]) && !IsSpace(w[|w| - 1])
    requires rest == [] || !IsWordChar(rest[0])
    ensures StartsWithWord(Strip(w + rest), w)
  {
    var s := w + rest;
    assert s[0] == w[0] && s[|w| - 1] == w[|w| - 1] && s[..|w|] == w;
    StripKeepsPrefix(s, |w|);
    var r := Strip(s);
    if |r| > |w| {
      StripIsSlice(s);
      SpaceRunEndAt(s, 0);
      assert r[|w|] == s[|w|] == rest[0];
    }
  }

  /** A line whose stripped form opens with a capital letter is prose: every
      whitelisted word is lower-case. */
  lemma CapitalLineIsText(line: string)
    requires line != [] && 'A' <= line[0] <= 'Z'
    ensures !IsCommandLine(line)
  {
    StripKeepsFirst(line);
    var t := Strip(line);
    WordsAreLowercase();
    OnlyOneWordFits(t, CommandWords(), |CommandWords()|, 0);
  }

  /** The formatted answer has one line per line of the text left by the first
      two passes, joined by single newlines; line i is that line, whole, in the
      colour its class calls for, followed by the reset. */
  lemma {:induction false} FormatLines(p: Palette, text: string)
    requires WellFormed(p)
    ensures var lines := SplitLines(Embolden(p, StripFences(text)));
            var out := SplitLines(Format(p, text));
            && Format(p, text) == JoinLines(out)
            && |out| == |lines|
            && forall i :: 0 <= i < |lines| ==>
                 (IsCommandLine(lines[i]) && out[i] == p.command + lines[i] + p.reset)
                 || (!IsCommandLine(lines[i]) && out[i] == p.text + lines[i] + p.reset)
  {
    var lines := SplitLines(Embolden(p, StripFences(text)));
    var colored := ColorizeAll(p, lines);
    forall i | 0 <= i < |colored|
      ensures NoLineBreak(colored[i])
      && ((IsCommandLine(lines[i]) && colored[i] == p.command + lines[i] + p.reset)
          || (!IsCommandLine(lines[i]) && colored[i] == p.text + lines[i] + p.reset))
    {
      NoLineBreakJoin3(p.command, lines[i], p.reset);
      NoLineBreakJoin3(p.text, lines[i], p.reset);
      ColorizeTells(p, lines[i]);
    }
    if colored != [] {
      assert |colored[|colored| - 1]| >= |p.command| > 0;
    }
    SplitJoin(colored);
  }

  /** For text with no fence and no "**" the first two passes do nothing, so
      each of its own lines comes out wrapped in exactly one colour. */
  lemma FormatPlain(p: Palette, text: string)
    requires WellFormed(p)
    requires NoFence(text) && NoStarPair(text)
    ensures var lines := SplitLines(text);
            var out := SplitLines(Format(p, text));
            && |out| == |lines|
            && forall i :: 0 <= i < |lines| ==> out[i] == Colorize(p, lines[i])
  {
    StripFencesKeepsFenceFree(text);
    EmboldenKeepsPlain(p, text);
    FormatLines(p, text);
    var lines := SplitLines(text);
    var out := SplitLines(Format(p, text));
    forall i | 0 <= i < |lines| ensures out[i] == Colorize(p, lines[i]) {
      ColorizeTells(p, lines[i]);
    }
  }

  /** `format_response` itself: in the assistant's palette each line left by
      the first two passes comes out as one line, untrimmed, in the command
      colour exactly when it is a command line and in the text colour
      otherwise, closed by the reset. */
  lemma FormatResponseLines(text: string)
    ensures var lines := SplitLines(Embolden(Nord(), StripFences(text)));
            var out := SplitLines(FormatResponse(text));
            && FormatResponse(text) == JoinLines(out)
            && |out| == |lines|
            && forall i :: 0 <= i < |lines| ==>
                 (out[i] == Nord().command + lines[i] + Nord().reset <==> IsCommandLine(lines[i]))
                 && (out[i] == Nord().text + lines[i] + Nord().reset <==> !IsCommandLine(lines[i]))
  {
    var p := Nord();
    NordWellFormed();
    FormatLines(p, text);
    var lines := SplitLines(Embolden(p, StripFences(text)));
    forall i | 0 <= i < |lines| ensures p.command + lines[i] + p.reset != p.text + lines[i] + p.reset {
      WrapsDiffer(p, lines[i]);
    }
  }

  /** The two line colours never give the same wrapped line. */
  lemma WrapsDiffer(p: Palette, line: string)
    requires WellFormed(p)
    ensures p.command + line + p.reset != p.text + line + p.reset
  {
    var c, t := p.command + line + p.reset, p.text + line + p.reset;
    assert c[..|p.command|] == p.command && t[..|p.text|] == p.text;
  }

  /** The fences of a prose line followed by a bash block are dropped, and
      the newlines around them stay. */
  lemma StripFencedAnswer(prose: string, cmd: string)
    requires NoBacktick(prose) && NoBacktick(cmd)
    ensures StripFences(prose + "\n```bash\n" + cmd + "\n```") == prose + "\n" + ("\n" + cmd + "\n")
  {
    var tail := "\n" + cmd + "\n";
    var block := "```bash" + (tail + "```");
    FencedAnswerParts(prose, cmd);
    NewlineAround(prose, cmd);
    StripFencesKeepsPlainPrefix(prose + "\n", block);
    BashFenceDropped(tail + "```");
    StripFencesKeepsPlainPrefix(tail, "```");
    ClosingFenceDropped();
  }

  /** The fenced answer read as the prose line, the opening fence, the
      block's body and the closing fence. */
  lemma FencedAnswerParts(prose: string, cmd: string)
    ensures prose + "\n```bash\n" + cmd + "\n```"
            == (prose + "\n") + ("```bash" + (("\n" + cmd + "\n") + "```"))
  {
  }

  lemma NewlineAround(prose: string, cmd: string)
    requires NoBacktick(prose) && NoBacktick(cmd)
    ensures NoBacktick(prose + "\n") && NoBacktick("\n" + cmd + "\n")
  {
    var a, b := prose + "\n", "\n" + cmd + "\n";
    assert forall i :: 0 <= i < |prose| ==> a[i] == prose[i];
    assert forall i :: 1 <= i < |b| - 1 ==> b[i] == cmd[i - 1];
  }

  /** An opening "```bash" is removed and the scan goes on right after it. */
  lemma BashFenceDropped(t: string)
    ensures StripFences("```bash" + t) == StripFences(t)
  {
    var s := "```bash" + t;
    assert BashFenceFirst(s);
    assert s[7..] == t;
  }

  /** A closing "```" is removed. */
  lemma ClosingFenceDropped()
    ensures StripFences("```") == []
  {
    assert FenceAt("```", 0);
  }

  /** The bold pass treats the three lines left by the fence pass one by one. */
  lemma EmboldenThreeLines(p: Palette, prose: string, cmd: string)
    ensures Embolden(p, prose + "\n" + ("\n" + cmd + "\n"))
            == JoinLines([Embolden(p, prose), "", Embolden(p, cmd)]) + "\n"
  {
    EmboldenBlockBody(p, cmd);
    EmboldenByLine(p, prose, "\n" + cmd + "\n");
    JoinWithBlank(Embolden(p, prose), Embolden(p, cmd));
  }

  lemma JoinWithBlank(a: string, b: string)
    ensures JoinLines([a, "", b]) + "\n" == a + "\n" + ("\n" + (b + "\n"))
  {
    var lines := [a, "", b];
    assert lines[1..] == ["", b] && lines[1..][1..] == [b];
    assert JoinLines(["", b]) == "\n" + b by {
      assert "" + "\n" + b == "\n" + b;
    }
    assert JoinLines(lines) == a + "\n" + ("\n" + b);
  }

  /** The empty line and the command line of a bash block, with the newline
      that ends the block. */
  lemma EmboldenBlockBody(p: Palette, cmd: string)
    ensures Embolden(p, "\n" + cmd + "\n") == "\n" + (Embolden(p, cmd) + "\n")
  {
    EmboldenLineEnd(p, cmd);
    EmboldenByLine(p, [], cmd + "\n");
    assert [] + "\n" + (cmd + "\n") == "\n" + cmd + "\n";
  }

  lemma EmboldenLineEnd(p: Palette, cmd: string)
    ensures Embolden(p, cmd + "\n") == Embolden(p, cmd) + "\n"
  {
    EmboldenByLine(p, cmd, []);
    assert cmd + "\n" + [] == cmd + "\n";
  }

  /** The first two passes leave a prose line followed by a fenced bash
      block as three lines: the prose, an empty line where the opening fence
      stood, and the command; no fence marker is left. */
  lemma FencedAnswerLines(p: Palette, prose: string, cmd: string)
    requires WellFormed(p)
    requires NoLineBreak(prose) && NoLineBreak(cmd)
    requires NoBacktick(prose) && NoBacktick(cmd)
    ensures SplitLines(Embolden(p, StripFences(prose + "\n```bash\n" + cmd + "\n```")))
            == [Embolden(p, prose), "", Embolden(p, cmd)]
  {
    var lines := [Embolden(p, prose), "", Embolden(p, cmd)];
    StripFencedAnswer(prose, cmd);
    EmboldenThreeLines(p, prose, cmd);
    EmboldenKeepsNoLineBreak(p, prose);
    EmboldenKeepsNoLineBreak(p, cmd);
    SplitJoinTerminated(lines);
  }

  /** The formatted form of such an answer: three coloured lines. */
  lemma FormatFencedAnswer(p: Palette, prose: string, cmd: string)
    requires WellFormed(p)
    requires NoLineBreak(prose) && NoLineBreak(cmd)
    requires NoBacktick(prose) && NoBacktick(cmd)
    ensures Format(p, prose + "\n```bash\n" + cmd + "\n```")
            == JoinLines([Colorize(p, Embolden(p, prose)), Colorize(p, ""), Colorize(p, Embolden(p, cmd))])
  {
    var lines := [Embolden(p, prose), "", Embolden(p, cmd)];
    FencedAnswerLines(p, prose, cmd);
    FormatOf(p, prose + "\n```bash\n" + cmd + "\n```", lines);
    ColorizeThree(p, lines[0], lines[1], lines[2]);
  }

  lemma FormatOf(p: Palette, text: string, lines: seq<string>)
    requires SplitLines(Embolden(p, StripFences(text))) == lines
    ensures Format(p, text) == JoinLines(ColorizeAll(p, lines))
  {
  }

  lemma ColorizeThree(p: Palette, a: string, b: string, c: string)
    ensures ColorizeAll(p, [a, b, c]) == [Colorize(p, a), Colorize(p, b), Colorize(p, c)]
  {
    var lines := [a, b, c];
    assert lines[1..] == [b, c] && lines[1..][1..] == [c] && lines[1..][1..][1..] == [];
  }
}
