/** Worked cases of the line classifier and of the bold pass. */
module FormatterExamples {
  import opened PyText
  import opened Formatter

  /** `ls` followed by a space is a whitelisted word: a command line. */
  lemma LsWithFlagsIsCommand()
    ensures IsCommandLine("ls -la")
  {
    StripTrimmed("ls -la");
    assert StartsWithWord("ls -la", CommandWords()[0]);
  }

  /** A name that only begins with `ls`, such as `lsblk` or `lsof`, has no
      word boundary after `ls`: the line is text, whatever follows. */
  lemma LongerLsNameIsText(line: string)
    requires |line| >= 3 && line[..2] == "ls" && IsWordChar(line[2])
    ensures !IsCommandLine(line)
  {
    assert line[0] == line[..2][0] == 'l';
    LongerNameIsText(line, 'l', 0);
  }

  /** Likewise for names that only begin with `rm`, such as `rmdir`. */
  lemma LongerRmNameIsText(line: string)
    requires |line| >= 3 && line[..2] == "rm" && IsWordChar(line[2])
    ensures !IsCommandLine(line)
  {
    assert line[0] == line[..2][0] == 'r';
    LongerNameIsText(line, 'r', 7);
  }

  /** A line opening with the two-letter word at `i` run on into a longer
      word keeps its first and third characters at the head once stripped,
      so no branch of the alternation matches. */
  lemma LongerNameIsText(line: string, c: char, i: nat)
    requires (c == 'l' && i == 0) || (c == 'r' && i == 7)
    requires |line| >= 3 && line[0] == c && line[..2] == CommandWords()[i] && IsWordChar(line[2])
    ensures !IsCommandLine(line)
  {
    WordInitials();
    WordCharIsNotSpace(line[2]);
    HeadSurvives(line);
    OnlyFirstLetterWord(Strip(line), c, i);
    NoBranchIsText(line);
  }

  /** A line whose first and third characters are not whitespace keeps both
      in place once stripped. */
  lemma HeadSurvives(line: string)
    requires |line| >= 3 && !IsSpace(line[0]) && !IsSpace(line[2])
    ensures var t := Strip(line);
            |t| >= 3 && t[0] == line[0] && t[2] == line[2]
  {
    StripOpensSlice(line);
  }

  /** A line whose stripped form opens with a letter and matches no branch is text. */
  lemma NoBranchIsText(line: string)
    requires Strip(line) != [] && 'a' <= Strip(line)[0] <= 'z'
    requires !MatchesFrom(Strip(line), CommandWords(), 0)
    ensures !IsCommandLine(line)
  {
  }

  /** The one whitelisted word opening with `c` sits at `i` and is two
      letters long; a stripped line opening with `c` and a word character
      in third place runs on past it, so no branch matches. */
  lemma OnlyFirstLetterWord(t: string, c: char, i: nat)
    requires (c == 'l' && i == 0) || (c == 'r' && i == 7)
    requires |t| >= 3 && t[0] == c && IsWordChar(t[2])
    ensures !MatchesFrom(t, CommandWords(), 0)
  {
    WordInitials();
    OnlyOneWordFits(t, CommandWords(), i, 0);
  }

  /** A stripped line opening with neither '#' nor '$' is a command line
      exactly when a branch of the alternation matches. */
  lemma TrimmedLineClass(line: string)
    requires Strip(line) == line && line != [] && line[0] != '#' && line[0] != '$'
    ensures IsCommandLine(line) <==> MatchesFrom(line, CommandWords(), 0)
  {
  }

  /** "ls" is the only whitelisted word opening with 'l', "rm" the only one
      opening with 'r'. */
  lemma WordInitials()
    ensures |CommandWords()| == 11 && CommandWords()[0] == "ls" && CommandWords()[7] == "rm"
    ensures forall k :: 0 < k < 11 ==> CommandWords()[k] != [] && CommandWords()[k][0] != 'l'
    ensures forall k :: 0 <= k < 11 && k != 7 ==> CommandWords()[k] != [] && CommandWords()[k][0] != 'r'
  {
  }
}
