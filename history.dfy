/** The list part of `read_bash_history`: keep the last `max_lines` raw lines
    of the history file, strip each, drop the blank ones and join the rest
    with "\n". Reading the file is not part of this model. */
module History {
  import opened PyText

  /** The default of `max_lines`, the value `ask_gemini` uses. */
  const DefaultMaxLines: int := 50

  /** Python's `lines[-maxLines:]` for any integer: a positive count keeps that
      many lines from the end (all of them when there are fewer); `-0` is `0`,
      so a zero count keeps the whole list; a negative count drops that many
      lines from the front. */
  function LastLines(lines: seq<string>, maxLines: int): (tail: seq<string>)
    ensures |tail| <= |lines| && tail == lines[|lines| - |tail|..]
    ensures maxLines > 0 ==> |tail| == if maxLines < |lines| then maxLines else |lines|
    ensures maxLines == 0 ==> tail == lines
    ensures maxLines < 0 ==> |tail| == if -maxLines < |lines| then |lines| + maxLines else 0
  {
    if maxLines > 0 then lines[if maxLines < |lines| then |lines| - maxLines else 0..]
    else lines[if -maxLines < |lines| then -maxLines else |lines|..]
  }

  /** Every line stripped, in order. */
  function StripAll(lines: seq<string>): (r: seq<string>)
    ensures |r| == |lines| && forall i :: 0 <= i < |lines| ==> r[i] == Strip(lines[i])
  {
    seq(|lines|, i requires 0 <= i < |lines| => Strip(lines[i]))
  }

  /** `a` is `b` with some elements left out, the rest kept in order. */
  predicate IsSubsequence(a: seq<string>, b: seq<string>)
    decreases |b|
  {
    if a == [] then true
    else if b == [] then false
    else (a[0] == b[0] && IsSubsequence(a[1..], b[1..])) || IsSubsequence(a, b[1..])
  }

  /** The non-blank raw lines, each stripped, in their original order. */
  function CleanLines(raw: seq<string>): (clean: seq<string>)
    ensures |clean| <= |raw|
    ensures forall i :: 0 <= i < |clean| ==> clean[i] != []
  {
    if raw == [] then []
    else
      var t := Strip(raw[0]);
      if t == [] then CleanLines(raw[1..]) else [t] + CleanLines(raw[1..])
  }

  /** The cleaned lines keep the order of the raw lines they come from. */
  lemma {:induction false} CleanLinesInOrder(raw: seq<string>)
    ensures IsSubsequence(CleanLines(raw), StripAll(raw))
  {
    if raw != [] {
      var t, rest := Strip(raw[0]), CleanLines(raw[1..]);
      CleanLinesInOrder(raw[1..]);
      assert StripAll(raw)[1..] == StripAll(raw[1..]);
      if t != [] {
        assert ([t] + rest)[1..] == rest;
      }
    }
  }

  /** No non-blank raw line is lost. */
  lemma {:induction false} CleanLinesComplete(raw: seq<string>)
    ensures forall j :: 0 <= j < |raw| && Strip(raw[j]) != [] ==> Strip(raw[j]) in CleanLines(raw)
  {
    if raw != [] {
      var t, rest := Strip(raw[0]), CleanLines(raw[1..]);
      CleanLinesComplete(raw[1..]);
      assert CleanLines(raw) == if t == [] then rest else [t] + rest;
      forall j | 0 <= j < |raw| && Strip(raw[j]) != [] ensures Strip(raw[j]) in CleanLines(raw) {
        if j > 0 {
          assert raw[j] == raw[1..][j - 1];
          assert Strip(raw[j]) in rest;
        }
      }
    }
  }

  /** The positions, from `i` on, of the raw lines that are not all
      whitespace (those whose strip is not empty): in
      increasing order, each once, and exactly those positions. */
  function NonBlankFrom(raw: seq<string>, i: nat): (idx: seq<nat>)
    requires i <= |raw|
    ensures forall k :: 0 <= k < |idx| ==> i <= idx[k] < |raw|
    ensures forall k, l :: 0 <= k < l < |idx| ==> idx[k] < idx[l]
    ensures forall j :: i <= j < |raw| ==> (j in idx <==> !AllSpace(raw[j]))
    decreases |raw| - i
  {
    if i == |raw| then []
    else
      var rest := NonBlankFrom(raw, i + 1);
      if AllSpace(raw[i]) then rest
      else
        assert forall k :: 1 <= k <= |rest| ==> ([i] + rest)[k] == rest[k - 1];
        [i] + rest
  }

  /** Every non-blank raw line is kept, once per occurrence: the cleaned
      lines are the stripped raw lines at exactly the non-blank positions,
      in order, repeats included. */
  lemma CleanLinesAtNonBlank(raw: seq<string>)
    ensures var idx := NonBlankFrom(raw, 0);
            |CleanLines(raw)| == |idx|
            && forall k :: 0 <= k < |idx| ==> CleanLines(raw)[k] == Strip(raw[idx[k]])
  {
    CleanLinesFrom(raw, 0);
    assert raw[0..] == raw;
  }

  lemma {:induction false} CleanLinesFrom(raw: seq<string>, i: nat)
    requires i <= |raw|
    ensures var idx, clean := NonBlankFrom(raw, i), CleanLines(raw[i..]);
            |clean| == |idx| && forall k :: 0 <= k < |idx| ==> clean[k] == Strip(raw[idx[k]])
    decreases |raw| - i
  {
    if i < |raw| {
      CleanLinesFrom(raw, i + 1);
      var t, rest, idx := Strip(raw[i]), CleanLines(raw[i + 1..]), NonBlankFrom(raw, i + 1);
      CleanLinesStep(raw, i);
      if !AllSpace(raw[i]) {
        assert NonBlankFrom(raw, i) == [i] + idx;
        PrependAt(raw, i, rest, idx);
      } else {
        assert NonBlankFrom(raw, i) == idx;
      }
    }
  }

  lemma CleanLinesStep(raw: seq<string>, i: nat)
    requires i < |raw|
    ensures var t, rest := Strip(raw[i]), CleanLines(raw[i + 1..]);
            CleanLines(raw[i..]) == if t == [] then rest else [t] + rest
  {
    assert raw[i..][0] == raw[i] && raw[i..][1..] == raw[i + 1..];
  }

  lemma PrependAt(raw: seq<string>, i: nat, rest: seq<string>, idx: seq<nat>)
    requires i < |raw| && |rest| == |idx|
    requires forall k :: 0 <= k < |idx| ==> idx[k] < |raw| && rest[k] == Strip(raw[idx[k]])
    ensures var clean, all := [Strip(raw[i])] + rest, [i] + idx;
            |clean| == |all| && forall k :: 0 <= k < |all| ==> clean[k] == Strip(raw[all[k]])
  {
    var clean, all := [Strip(raw[i])] + rest, [i] + idx;
    forall k | 0 <= k < |all| ensures clean[k] == Strip(raw[all[k]]) {
      if k > 0 { assert clean[k] == rest[k - 1] && all[k] == idx[k - 1]; }
    }
  }

  /** Whatever a subsequence holds, the sequence holds too. */
  lemma {:induction false} SubsequenceMembers(a: seq<string>, b: seq<string>)
    requires IsSubsequence(a, b)
    ensures forall i :: 0 <= i < |a| ==> a[i] in b
    decreases |b|
  {
    if a != [] {
      if a[0] == b[0] && IsSubsequence(a[1..], b[1..]) {
        SubsequenceMembers(a[1..], b[1..]);
        forall i | 1 <= i < |a| ensures a[i] in b {
          assert a[i] == a[1..][i - 1];
          assert a[i] in b[1..];
        }
      } else {
        SubsequenceMembers(a, b[1..]);
      }
    }
  }

  /** The history text placed into the prompt. */
  function HistoryText(raw: seq<string>, maxLines: int): string {
    JoinLines(CleanLines(LastLines(raw, maxLines)))
  }

  /** Raw lines whose stripped text has no line boundary give cleaned lines
      without one. */
  lemma {:induction false} CleanLinesNoBreak(raw: seq<string>)
    requires forall j :: 0 <= j < |raw| ==> NoLineBreak(Strip(raw[j]))
    ensures forall i :: 0 <= i < |CleanLines(raw)| ==> NoLineBreak(CleanLines(raw)[i])
  {
    if raw != [] {
      SuffixNoBreak(raw, 1);
      CleanLinesNoBreak(raw[1..]);
    }
  }

  /** Nothing is left exactly when every raw line is blank. */
  lemma {:induction false} CleanLinesEmpty(raw: seq<string>)
    ensures CleanLines(raw) == [] <==> forall j :: 0 <= j < |raw| ==> AllSpace(raw[j])
  {
    if raw != [] {
      CleanLinesEmpty(raw[1..]);
      assert forall j :: 0 <= j < |raw| - 1 ==> raw[1..][j] == raw[j + 1];
    }
  }

  /** With a positive limit, the history read back line by line is exactly the
      cleaned tail: at most `maxLines` lines, each stripped and non-blank, in
      the order of the file, each one of its last `maxLines` lines. This needs
      the raw lines to hold no line boundary inside their stripped text. */
  lemma HistoryLines(raw: seq<string>, maxLines: int)
    requires maxLines > 0
    requires forall j :: 0 <= j < |raw| ==> NoLineBreak(Strip(raw[j]))
    ensures var tail := LastLines(raw, maxLines);
            var lines := SplitLines(HistoryText(raw, maxLines));
            && lines == CleanLines(tail)
            && |lines| <= maxLines
            && IsSubsequence(lines, StripAll(tail))
            && (forall i :: 0 <= i < |lines| ==> lines[i] in StripAll(tail))
            && forall i :: 0 <= i < |lines| ==> lines[i] != [] && Strip(lines[i]) == lines[i]
  {
    var tail := LastLines(raw, maxLines);
    var clean := CleanLines(tail);
    TailNoBreak(raw, maxLines);
    CleanLinesNoBreak(tail);
    CleanLinesInOrder(tail);
    SubsequenceMembers(clean, StripAll(tail));
    CleanLinesStripped(tail);
    SplitJoin(clean);
  }

  lemma TailNoBreak(raw: seq<string>, maxLines: int)
    requires forall j :: 0 <= j < |raw| ==> NoLineBreak(Strip(raw[j]))
    ensures var tail := LastLines(raw, maxLines);
            forall j :: 0 <= j < |tail| ==> NoLineBreak(Strip(tail[j]))
  {
    var tail := LastLines(raw, maxLines);
    SuffixNoBreak(raw, |raw| - |tail|);
  }

  lemma SuffixNoBreak(raw: seq<string>, k: nat)
    requires k <= |raw|
    requires forall j :: 0 <= j < |raw| ==> NoLineBreak(Strip(raw[j]))
    ensures forall j :: 0 <= j < |raw| - k ==> NoLineBreak(Strip(raw[k..][j]))
  {
    forall j | 0 <= j < |raw| - k ensures NoLineBreak(Strip(raw[k..][j])) {
      assert raw[k..][j] == raw[k + j];
    }
  }

  /** Every cleaned line is its own strip. */
  lemma {:induction false} CleanLinesStripped(raw: seq<string>)
    ensures AllStripped(CleanLines(raw))
  {
    if raw != [] {
      var t := Strip(raw[0]);
      CleanLinesStripped(raw[1..]);
      if t != [] {
        StripIdempotent(raw[0]);
        StrippedCons(t, CleanLines(raw[1..]));
      }
    }
  }

  predicate AllStripped(lines: seq<string>) {
    forall i :: 0 <= i < |lines| ==> Strip(lines[i]) == lines[i]
  }

  lemma StrippedCons(t: string, rest: seq<string>)
    requires Strip(t) == t && AllStripped(rest)
    ensures AllStripped([t] + rest)
  {
    var lines := [t] + rest;
    forall i | 0 <= i < |lines| ensures Strip(lines[i]) == lines[i] {
      if i > 0 { assert lines[i] == rest[i - 1]; }
    }
  }

  /** The history is empty exactly when every one of the last lines is blank. */
  lemma HistoryEmptyWhenBlank(raw: seq<string>, maxLines: int)
    ensures var tail := LastLines(raw, maxLines);
            HistoryText(raw, maxLines) == "" <==> forall j :: 0 <= j < |tail| ==> AllSpace(tail[j])
  {
    var tail := LastLines(raw, maxLines);
    var clean := CleanLines(tail);
    CleanLinesEmpty(tail);
    JoinLinesEmpty(clean);
    assert clean != [""] by {
      if |clean| == 1 { assert clean[0] != []; }
    }
  }
}
