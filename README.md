# Gemini terminal assistant: text handling

`Gemini.py` is a command-line assistant for an Arch Linux user. It sends a
question, together with the user's recent bash history, to a remote
language model. It then prints the model's reply in colour. This project
models the pure text handling of that script in Dafny and proves
properties of it:

- **`format_response`**, as three passes over the reply.
  - Pass one deletes the code-fence markers "```bash" and "```". Only the
    markers go: the newline after "```bash" stays. So a prose line followed
    by a fenced bash block comes out as three lines, with an empty line
    where "```bash" stood (`Formatter.FencedAnswerLines`).
  - Pass two turns every `**X**` span into the bold colour, then X, then
    the reset.
  - Pass three splits the text into lines. Each line goes in the command
    colour or in the text colour, followed by the reset, and the lines are
    joined again with "\n".
- **The list part of `read_bash_history`**: keep the last `max_lines` raw
  lines, strip each one, drop the blank ones, and join the rest with "\n".
- **The prompt** that `ask_gemini` sends: the persona, the history under
  its heading, then the question under its heading. The persona is a
  parameter of `Query.Prompt`, like the colours; the script's value is
  `Query.ArchUserInfo()`.
- **The choice of the returned answer**: a missing or empty reply text
  becomes a fixed notice.

The project is split into modules:

- `PyText` (`py_text.dfy`) states the Python string operations the script
  relies on: `str.isspace`, `lstrip`, `rstrip`, `strip`, `splitlines` with
  all of its line boundaries (and "\r\n" counted as one), and
  `"\n".join`.
- `Formatter` (`formatter.dfy`) holds the three passes. The regular
  expressions are written out as left-to-right recursive scans:
  - the leftmost alternation `bash-fence | fence`;
  - the lazy `.+?` group, which never crosses a newline;
  - the whitelist `(ls|cd|...)\b`, tried branch by branch.
- The colours form a `Palette` parameter. `Nord()` holds the script's four
  24-bit escape sequences. A palette must be `WellFormed`: no line
  boundary inside its escape sequences, and two line colours that are
  non-empty, equally long and different. `NordWellFormed` proves that
  `Nord()` meets this.
- `FormatterExamples` (`formatter_examples.dfy`) works through the cases
  `ls -la`, `lsblk` and `rmdir`.
- `History` (`history.dfy`) models the history clean-up, including
  Python's `lines[-n:]` for every integer `n`: `-0` is `0`, so a zero
  count keeps every line, and a negative count drops lines from the front.
- `Query` (`query.dfy`) models the prompt and the answer selection.

## Model

| member | source | states |
|---|---|---|
| PyText.Strip | Gemini.py:32 | `strip` removes whitespace only: the result has no whitespace at either end, and it is empty exactly when the line is all whitespace |
| PyText.StripIsSlice | Gemini.py:73 | `strip` returns the slice of the line that starts where `lstrip` stops, with only whitespace before and after it |
| PyText.StripIdempotent | Gemini.py:32 | stripping a stripped line changes nothing |
| PyText.StripKeepsFirst | Gemini.py:73 | a line opening with a non-space character keeps that character first once stripped |
| PyText.StripKeepsPrefix | Gemini.py:73 | a line whose first character and `n`-th character are not whitespace keeps its first `n` characters, in place, once stripped |
| PyText.StripOpensSlice | Gemini.py:73 | a line opening with a non-space character strips to one of its own prefixes, with only whitespace after it |
| PyText.TrimStart | Gemini.py:73 | `lstrip` drops a run of leading whitespace, all of it and nothing more |
| PyText.TrimEnd | Gemini.py:73 | `rstrip` drops a run of trailing whitespace, all of it and nothing more |
| PyText.SplitLines | Gemini.py:78 | `splitlines` yields lines with no boundary inside, no more lines than characters, and no lines exactly for "" |
| PyText.JoinLines | Gemini.py:33 | `"\n".join`: the lines with one "\n" between each two; `SplitJoin`, `JoinSplit` and `JoinLinesEmpty` tie it to `splitlines` |
| PyText.SplitJoin | Gemini.py:78 | splitting the "\n"-join of boundary-free lines, the last one non-empty, gives the lines back |
| PyText.SplitJoinTerminated | Gemini.py:78 | the same holds with a trailing "\n" after the last line, which opens no extra line |
| PyText.JoinSplit | Gemini.py:78 | for text whose only boundaries are "\n" and that does not end in one, joining its lines with "\n" rebuilds it |
| PyText.JoinLinesEmpty | Gemini.py:33 | a "\n"-join is empty exactly for no lines or a single empty line |
| Formatter.NordWellFormed | Gemini.py:21-24 | the script's four escape sequences hold no line boundary, and the command and text colours are equally long and differ |
| Formatter.Nord | Gemini.py:21-24 | the script's bold, command, text and reset escape sequences, character for character |
| Formatter.StripFencesLeavesNoFence | Gemini.py:68 | after fence stripping no "```" is left anywhere in the text |
| Formatter.StripFences | Gemini.py:68 | the fence pass: "```bash" is tried before "```" at each position and deleted, every other character is kept; the result is never longer than the text |
| Formatter.StripFencesKeepsFenceFree | Gemini.py:68 | text with no "```" passes through fence stripping unchanged |
| Formatter.StripFencesIdempotent | Gemini.py:68 | stripping fences twice is the same as stripping once |
| Formatter.StripFencesKeepsPlainPrefix | Gemini.py:68 | a prefix with no backtick is kept as is and does not change how the rest is scanned |
| Formatter.BashFenceDropped | Gemini.py:68 | "```bash" is tried before "```" and removed whole, and the scan resumes right after it |
| Formatter.CloseFrom | Gemini.py:69 | the lazy group, grown one character at a time, stops at the first closing "**" on the same line, or reports that none exists |
| Formatter.Embolden | Gemini.py:69 | the bold pass: a `**` followed by its nearest closing `**` on the same line becomes the bold colour, the group and the reset; every other character is kept. Its behaviour is stated by the lemmas below |
| Formatter.BoldEnd | Gemini.py:69 | the closing "**" found after an opening one is the nearest one with a non-empty, newline-free group, or there is none |
| Formatter.EmboldenKeepsPlain | Gemini.py:69 | text with no "**" is left unchanged by the bold pass |
| Formatter.EmboldenKeepsPlainPrefix | Gemini.py:69 | a prefix with no '*' is kept as is and does not change how the rest is scanned |
| Formatter.EmboldenSpan | Gemini.py:69 | a span `**X**`, with X non-empty, on one line and closing nowhere earlier, becomes exactly the bold colour, X and the reset, and the scan goes on after it |
| Formatter.EmboldenOneSpan | Gemini.py:69 | in a line with a single bold span, only the span changes |
| Formatter.EmboldenByLine | Gemini.py:69 | bold spans never cross a newline: the bold pass works line by line |
| Formatter.EmboldenKeepsNoLineBreak | Gemini.py:69 | the bold pass adds no line boundary to text that has none |
| Formatter.MatchesFromMeans | Gemini.py:73 | trying the alternation's branches in order matches exactly when some whitelisted word opens the stripped line as a whole word |
| Formatter.CommandWords | Gemini.py:73 | the eleven whitelisted command names, in the order of the alternation |
| Formatter.IsCommandLine | Gemini.py:73 | the test of `colorize`, on the stripped line: it opens with '#' or '$', or the alternation matches. `CommandLineMeans` states what that means |
| Formatter.OnlyOneWordFits | Gemini.py:73 | when every other word opens with a different letter and the remaining candidate does not fit, no branch matches |
| Formatter.CommandLineMeans | Gemini.py:73 | a line is a command line exactly when its stripped form opens with '#' or '$', or with a whitelisted word followed by a word boundary |
| Formatter.Colorize | Gemini.py:71-76 | each line is wrapped whole and untrimmed in one of the two colours, followed by the reset |
| Formatter.ColorizeTells | Gemini.py:71-76 | a line gets the command colour exactly when it is a command line, and the text colour exactly when it is not |
| Formatter.ColorizeAll | Gemini.py:78 | the lines are coloured one by one, in order, each from itself alone |
| Formatter.IndentKeepsClass | Gemini.py:73 | indenting a line never changes its class |
| Formatter.PromptMarksCommand | Gemini.py:73-74 | a line whose stripped form opens with '#' or '$' is a command line, whatever follows |
| Formatter.WordMarksCommand | Gemini.py:73-74 | a whitelisted word, however indented, followed by the end of the line or by a non-word character, makes a command line |
| Formatter.StripKeepsWord | Gemini.py:73 | stripping a line that opens with a word followed by a non-word character, or by nothing, leaves that word at the head of the line as a whole word |
| Formatter.BlankLineIsText | Gemini.py:73-76 | an empty or whitespace-only line is never a command line |
| Formatter.BlankLineColors | Gemini.py:76 | an empty or whitespace-only line gets the text colour |
| Formatter.CapitalLineIsText | Gemini.py:73 | a line opening with a capital letter is text, because every whitelisted word is lower-case |
| Formatter.FormatLines | Gemini.py:66-78 | the output has one line per line left by the first two passes, joined by single "\n"; line i is that line, whole and untrimmed, in the colour its class calls for, then the reset |
| Formatter.Format | Gemini.py:66-78 | the three passes with a given palette: strip fences, embolden, then colour each line and join with "\n". `FormatLines` and `FormatPlain` state what comes out |
| Formatter.FormatResponse | Gemini.py:66-78 | `format_response` is `Format` with the script's Nord colours. `FormatResponseLines` states what comes out |
| Formatter.FormatPlain | Gemini.py:66-78 | for text with no fence and no "**", each of the text's own lines comes out coloured as `colorize` colours it |
| Formatter.FormatResponseLines | Gemini.py:66-78 | `format_response` with the script's colours: each line comes out untrimmed, in the command colour exactly when it is a command line and in the text colour otherwise |
| Formatter.WrapsDiffer | Gemini.py:74-76 | a line wrapped in the command colour never equals the same line wrapped in the text colour |
| Formatter.StripFencedAnswer | Gemini.py:68 | for a prose line followed by a fenced bash block, the two fences are deleted and the newlines around them stay |
| Formatter.FencedAnswerLines | Gemini.py:68-78 | after the first two passes, such a reply splits into three lines: the prose, an empty line where the opening fence stood, and the command |
| Formatter.FormatFencedAnswer | Gemini.py:66-78 | such a reply is formatted as those three lines, each coloured on its own |
| FormatterExamples.LsWithFlagsIsCommand | Gemini.py:73 | `ls -la` is a command line |
| FormatterExamples.LongerLsNameIsText | Gemini.py:73 | a name that only begins with `ls`, such as `lsblk`, has no word boundary after `ls`, so the line is text, whatever follows, trailing whitespace included |
| FormatterExamples.LongerRmNameIsText | Gemini.py:73 | the same holds for names that only begin with `rm`, such as `rmdir` |
| FormatterExamples.TrimmedLineClass | Gemini.py:73 | a stripped line that opens with neither '#' nor '$' is a command line exactly when a branch of the alternation matches |
| FormatterExamples.LongerNameIsText | Gemini.py:73 | a line opening with `ls` or `rm` run on into a word character is text |
| FormatterExamples.HeadSurvives | Gemini.py:73 | a line whose first and third characters are not whitespace keeps both in place once stripped |
| FormatterExamples.OnlyFirstLetterWord | Gemini.py:73 | a stripped line opening with 'l' or 'r' and a word character in third place matches no branch of the alternation |
| FormatterExamples.NoBranchIsText | Gemini.py:73 | a line whose stripped form opens with a lower-case letter and matches no branch is text |
| History.LastLines | Gemini.py:32 | `lines[-n:]` is a suffix: it has `n` lines when `n` is positive, or all lines if there are fewer; it is the whole list when `n` is 0; for a negative `n` it drops the first `-n` lines |
| History.CleanLines | Gemini.py:32 | the cleaned history has no more lines than the raw tail, and none of them is empty |
| History.CleanLinesInOrder | Gemini.py:32 | the cleaned lines are a subsequence of the stripped raw lines, in file order |
| History.CleanLinesComplete | Gemini.py:32 | every raw line that is not blank is kept, stripped |
| History.NonBlankFrom | Gemini.py:32 | the positions, from `i` on, of the raw lines that are not blank: in increasing order, each once, and exactly those |
| History.CleanLinesAtNonBlank | Gemini.py:32 | the cleaned history is the stripped raw lines at exactly the non-blank positions, one per position and in order, so repeated commands are all kept |
| History.SubsequenceMembers | Gemini.py:32 | every line of a subsequence occurs in the sequence it was drawn from |
| History.CleanLinesStripped | Gemini.py:32 | every cleaned line is its own strip |
| History.HistoryText | Gemini.py:32-33 | `read_bash_history` after the file is read: the last `max_lines` lines, stripped, blank ones dropped, joined with "\n". `HistoryLines` and `HistoryEmptyWhenBlank` state what comes out |
| History.CleanLinesEmpty | Gemini.py:32 | nothing is left exactly when every raw line is blank |
| History.HistoryLines | Gemini.py:27-33 | with a positive limit, the history read back line by line is the cleaned tail: at most `max_lines` lines, each stripped and non-empty, in file order, each one of the last `max_lines` raw lines stripped |
| History.HistoryEmptyWhenBlank | Gemini.py:32-33 | the history is "" exactly when every one of the last lines is blank |
| Query.BuildContext | Gemini.py:48 | the prompt is the persona, "\nRecent bash history:\n", the history, "\nUser question: " and the question, in that order, with nothing else |
| Query.ArchUserInfo | Gemini.py:10-18 | the persona text, with the commented-out line left out as Python does |
| Query.ContextDeterminesParts | Gemini.py:48 | for the same persona and histories of equal length, two equal prompts have the same history and the same question |
| Query.Prompt | Gemini.py:47-48 | the prompt `ask_gemini` sends opens with the persona and closes with the question |
| Query.ContextHistoryBounded | Gemini.py:47-48 | for any raw history, the history in the prompt sits right after the persona and its heading, and it is the "\n"-join of at most 50 cleaned lines, each stripped and non-empty |
| Query.AskGeminiPrompt | Gemini.py:47-48 | the prompt `ask_gemini` sends: `Prompt` around the script's persona |
| Query.SelectAnswer | Gemini.py:58-61 | a missing or empty reply text becomes the fixed "No response received" notice, any other text is returned unchanged, and the answer is never empty |
| Query.NoResponse | Gemini.py:60 | the notice returned for a missing or empty reply |

## Left out

- The client construction and the remote `generate_content` call (Gemini.py:44-56). They go through a vendor SDK over the network. `Query.SelectAnswer` takes the reply's text attribute as an `Option<string>` parameter instead.
- Reading `GOOGLE_API_KEY` and the missing-key `RuntimeError` (Gemini.py:40-42). This is a lookup in the process environment.
- Opening and reading `~/.bash_history`, and the `except` that returns "" (Gemini.py:29-35). This is file I/O, so `History` starts from the list of raw lines.
- The text of the error returned when the SDK raises (Gemini.py:62-63). It depends on the foreign exception's message.
- The `__main__` entry point (Gemini.py:81-93): argument checks, printing and the exit code.
- How a terminal renders the escape sequences. The colours are opaque strings in a `Palette`.
- Formatter.IsWordChar: `\w` is modelled on ASCII letters, digits and '_' only. Python also counts non-ASCII letters and digits, so a whitelisted word followed by, say, an accented letter is a command line in the model but text in Python.
- History.HistoryLines: the read-back through `SplitLines` is stated only for raw lines whose stripped text holds no line boundary, such as a form feed or "\x1c". The script never splits the history again, but `splitlines` would split such a line in two, so the lines read back would no longer be the cleaned lines. `Query.ContextHistoryBounded` states the bound on the cleaned lines themselves, for every history.
